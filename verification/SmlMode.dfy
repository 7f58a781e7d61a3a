/** The SML mode: its tokenisers, and why runMode never gets stuck in it. */
module SmlMode {
  import opened Common
  import opened Highlight
  import opened SmlGrammar
  import B = BidiTypes

  datatype Tokenizer = TokenBase | TokenString | TokenComment

  datatype State = State(tokenize: Tokenizer, commentDepth: nat)

  /** Inside a comment exactly when comments are open. */
  predicate Consistent(st: State)
  {
    st.tokenize == TokenComment <==> st.commentDepth > 0
  }

  // ----- character classes -----

  predicate IsDigit(c: char) { '0' <= c <= '9' }

  predicate IsHex(c: char) { IsDigit(c) || 'a' <= c <= 'f' || 'A' <= c <= 'F' }

  predicate IsWord(c: char) { IsDigit(c) || 'a' <= c <= 'z' || 'A' <= c <= 'Z' || c == '_' }

  predicate IsBlank(c: char) { B.IsSpace(c as int) }

  // ----- the stream -----

  /** eatWhile and eatSpace: the position behind all characters that satisfy `p`. */
  function EatWhile(text: string, pos: nat, p: char -> bool): (r: nat)
    requires pos <= |text|
    ensures pos <= r <= |text| && (forall k: nat | pos <= k < r :: p(text[k])) && (r < |text| ==> !p(text[r]))
    decreases |text| - pos
  {
    if pos < |text| && p(text[pos]) then EatWhile(text, pos + 1, p) else pos
  }

  function Eat(text: string, pos: nat, c: char): (r: nat)
    requires pos <= |text|
    ensures pos <= r <= |text|
  {
    if At(text, pos, c) then pos + 1 else pos
  }

  // ----- strings -----

  /** tokenString, as its loop runs it. */
  method ReadString(text: string, start: nat) returns (pos: nat, end: bool)
    requires start <= |text|
    ensures StringEnd(text, start, start) == if end then Some(pos) else None
    ensures forall p: nat :: StringEnds(text, start, p) <==> end && p == pos
    ensures start <= pos <= |text| && (!end ==> pos == |text|)
  {
    StringEndMeans(text, start);
    pos, end := start, false;
    var escaped := false;
    while pos < |text|
      invariant start <= pos <= |text| && escaped == Escaped(text, start, pos)
      invariant StringEnd(text, start, start) == StringEnd(text, start, pos)
    {
      var next := text[pos];
      pos := pos + 1;
      if next == '\"' && !escaped {
        return pos, true;
      }
      escaped := !escaped && next == '\\';
    }
  }

  function StringToken(text: string, pos: nat, st: State): Token<State>
    requires pos <= |text|
  {
    var end := StringEnd(text, pos, pos);
    if end.Some? then Token(end.value, Some("string"), st.(tokenize := TokenBase))
    else Token(|text|, Some("string error"), st)
  }

  // ----- comments -----

  /** tokenComment, as its loop runs it: it stops where the depth first is 0, or at the end of the line. */
  method ReadComment(text: string, start: nat, depth: nat) returns (pos: nat, commentDepth: nat)
    requires start <= |text|
    ensures pos == CommentEnd(text, start, start, depth) && commentDepth == depth + Balance(text, start, pos)
    ensures forall p: nat :: CommentsEnd(text, start, depth, p) <==> commentDepth == 0 && p == pos
    ensures forall e: nat | e > 0 :: StillOpen(text, start, depth, e) <==> commentDepth == e
    ensures commentDepth > 0 ==> pos == |text|
  {
    hide CommentsEnd, StillOpen;
    CommentEndMeans(text, start, depth);
    pos, commentDepth := start, depth;
    var prev: Option<char> := None;
    while commentDepth > 0 && pos < |text|
      invariant start <= pos <= |text| && commentDepth == depth + Balance(text, start, pos)
      invariant prev == if pos == start then None else Some(text[pos - 1])
      invariant CommentEnd(text, start, start, depth) == CommentEnd(text, start, pos, depth)
      decreases |text| - pos
    {
      var next := text[pos];
      assert prev.Some? ==> text[pos - 1..pos + 1] == [prev.value, next];
      if prev == Some('(') && next == '*' { commentDepth := commentDepth + 1; }
      if prev == Some('*') && next == ')' { commentDepth := commentDepth - 1; }
      prev := Some(next);
      pos := pos + 1;
    }
  }

  function CommentToken(text: string, pos: nat, st: State): Token<State>
    requires pos <= |text|
  {
    var end := CommentEnd(text, pos, pos, st.commentDepth);
    DepthStaysNatural(text, pos, end, st.commentDepth);
    var depth: nat := st.commentDepth + Balance(text, pos, end);
    Token(end, Some("comment"), State(if depth == 0 then TokenBase else st.tokenize, depth))
  }

  // ----- everything else -----

  const KEYWORDS := {
    "abstype", "and", "andalso", "as", "case", "datatype", "do", "else", "eqtype", "end", "exception", "fn", "fun",
    "functor", "handle", "if", "in", "include", "infix", "infixr", "let", "local", "nonfix", "of", "op", "open",
    "orelse", "raise", "rec", "sharing", "sig", "signature", "struct", "structure", "then", "type", "val", "where",
    "while", "with", "withtype"}

  /** The digits, fraction and exponent of a decimal number, from behind its first digit on. */
  function DecimalEnd(text: string, pos: nat): (r: nat)
    requires pos <= |text|
    ensures pos <= r <= |text|
  {
    var p := FractionEnd(text, pos);
    if At(text, p, 'e') || At(text, p, 'E') then EatWhile(text, Eat(text, p + 1, '~'), IsDigit) else p
  }

  function FractionEnd(text: string, pos: nat): (r: nat)
    requires pos <= |text|
    ensures pos <= r <= |text|
  {
    var p := EatWhile(text, pos, IsDigit);
    if At(text, p, '.') then EatWhile(text, p + 1, IsDigit) else p
  }

  /** What follows 0x: hexadecimal digits, or an error. */
  function HexToken(text: string, pos: nat, st: State): Token<State>
    requires pos <= |text|
  {
    var p := EatWhile(text, pos, IsHex);
    Token(p, Some(if p > pos then "number" else "error"), st)
  }

  /** What follows 0w: x and hexadecimal digits, or digits, or an error. */
  function WordToken(text: string, pos: nat, st: State): Token<State>
    requires pos <= |text|
  {
    if At(text, pos, 'x') then HexToken(text, pos + 1, st)
    else
      var p := EatWhile(text, pos, IsDigit);
      Token(p, Some(if p > pos then "number" else "error"), st)
  }

  /** What follows a tilde. */
  function NegativeToken(text: string, pos: nat, st: State): Token<State>
    requires pos <= |text|
  {
    if At(text, pos, '0') then
      if At(text, pos + 1, 'x') then HexToken(text, pos + 2, st)
      else if At(text, pos + 1, 'w') then WordToken(text, pos + 2, st)
      else Token(FractionEnd(text, pos + 1), Some("number"), st)
    else if pos < |text| && IsDigit(text[pos]) then Token(DecimalEnd(text, pos), Some("number"), st)
    else Token(pos, None, st)
  }

  /** tokenBase; there is a character left. */
  function BaseToken(text: string, pos: nat, st: State): Token<State>
    requires pos < |text|
  {
    var ch, next := text[pos], pos + 1;
    if ch == '\"' then StringToken(text, next, st.(tokenize := TokenString))
    else if ch == '(' then
      if At(text, next, '*') then CommentToken(text, next + 1, State(TokenComment, st.commentDepth + 1))
      else Token(next, None, st)
    else if ch == '~' then NegativeToken(text, next, st)
    else if ch == '0' && At(text, next, 'x') then HexToken(text, next + 1, st)
    else if ch == '0' && At(text, next, 'w') then WordToken(text, next + 1, st)
    else if IsDigit(ch) then Token(DecimalEnd(text, next), Some("number"), st)
    else if ch == '*' then
      if At(text, next, ')') then Token(next + 1, Some("error"), st) else Token(next, None, st)
    else if ch == '#' then
      if At(text, next, '\"') then StringToken(text, next + 1, st.(tokenize := TokenString))
      else if next < |text| && IsDigit(text[next]) then Token(EatWhile(text, next, IsDigit), Some("keyword"), st)
      else Token(next, None, st)
    else
      var end := EatWhile(text, next, IsWord);
      Token(end, Some(if text[pos..end] in KEYWORDS then "keyword" else "variable"), st)
  }

  /** token */
  function SmlToken(text: string, pos: nat, st: State): Token<State>
  {
    if pos >= |text| then Token(pos, None, st)
    else
      var blank := EatWhile(text, pos, IsBlank);
      if blank > pos then Token(blank, None, st)
      else
        match st.tokenize
        case TokenBase => BaseToken(text, pos, st)
        case TokenString => StringToken(text, pos, st)
        case TokenComment => CommentToken(text, pos, st)
  }

  /** Is the string that the call at `pos` reads open at `start`? */
  predicate InString(text: string, pos: nat, st: State, start: nat)
  {
    match st.tokenize
    case TokenBase =>
      || (At(text, pos, '\"') && start == pos + 1)
      || (Pair(text, pos, '#', '\"') && start == pos + 2)
    case TokenString => pos < |text| && !IsBlank(text[pos]) && start == pos
    case TokenComment => false
  }

  /** A string is read up to where the grammar ends it, or to the end of the line. */
  lemma StringTokens(text: string, pos: nat, st: State, start: nat)
    requires InString(text, pos, st, start)
    ensures forall p: nat | StringEnds(text, start, p) ::
              SmlToken(text, pos, st) == Token(p, Some("string"), st.(tokenize := TokenBase))
    ensures (forall p: nat :: !StringEnds(text, start, p)) ==>
              SmlToken(text, pos, st) == Token(|text|, Some("string error"), st.(tokenize := TokenString))
  {
    StringEndMeans(text, start);
    assert StringEnd(text, start, start).Some? ==>
        StringEnds(text, start, StringEnd(text, start, start).value);
  }

  /** Are `depth` comments that the call at `pos` reads open at `start`? */
  predicate InComment(text: string, pos: nat, st: State, start: nat, depth: nat)
  {
    match st.tokenize
    case TokenBase => Pair(text, pos, '(', '*') && start == pos + 2 && depth == 1
    case TokenString => false
    case TokenComment => pos < |text| && !IsBlank(text[pos]) && start == pos && depth == st.commentDepth
  }

  /** A comment is read up to where the grammar ends it, or to the end of the line with the depth the grammar has
      there. */
  lemma CommentTokens(text: string, pos: nat, st: State, start: nat, depth: nat)
    requires Consistent(st) && InComment(text, pos, st, start, depth)
    ensures forall p: nat :: CommentsEnd(text, start, depth, p) <==>
              SmlToken(text, pos, st) == Token(p, Some("comment"), State(TokenBase, 0))
    ensures forall e: nat | e > 0 :: StillOpen(text, start, depth, e) <==>
              SmlToken(text, pos, st) == Token(|text|, Some("comment"), State(TokenComment, e))
    ensures var t := SmlToken(text, pos, st);
            && t.style == Some("comment")
            && (t.state == State(TokenBase, 0) || (t.pos == |text| && t.state.tokenize == TokenComment))
  {
    hide CommentsEnd, StillOpen, CommentEnd, Balance;
    CommentEndMeans(text, start, depth);
    assert SmlToken(text, pos, st) == CommentToken(text, start, State(TokenComment, depth));
  }

  const SML: Mode<State> := Mode(SmlToken)

  /** A call on a consistent state moves forward, and leaves a consistent state. */
  lemma SmlAdvances(text: string, pos: nat, st: State)
    requires pos < |text| && Consistent(st)
    ensures var t := SmlToken(text, pos, st); pos < t.pos <= |text| && Consistent(t.state)
  {
    if st.tokenize == TokenComment {
      assert CommentEnd(text, pos, pos, st.commentDepth) > pos;
    }
  }

  lemma SmlIsForward()
    ensures Forward(SML)
  {
  }

  /** On the SML mode, from a consistent state, runMode gets through every line. */
  lemma {:induction false} SmlNeverStuck(text: string, pos: nat, st: State, max: int)
    requires Forward(SML) && pos <= |text| && Consistent(st)
    ensures Tokens(SML, text, pos, st, max).Some?
    decreases |text| - pos
  {
    if pos < |text| && pos <= max {
      SmlAdvances(text, pos, st);
      var t := SmlToken(text, pos, st);
      assert ReadToken(SML, text, pos, st, TRIES) == Some(t);
      SmlNeverStuck(text, t.pos, t.state, max);
    }
  }

  /** Highlighting a line of SML: segments that end with the line, one style for each character. */
  method HighlightSml(text: string, st: State, flatten: bool, max: int) returns (segs: seq<Seg>)
    requires Consistent(st)
    ensures Forward(SML) && Tokens(SML, text, 0, st, max).Some?
    ensures Tiled(segs, 0) && EndOf(segs, 0) == |text|
    ensures Paint(segs, 0) == Paint(Tokens(SML, text, 0, st, max).value, 0)
  {
    SmlIsForward();
    SmlNeverStuck(text, 0, st, max);
    var out := RunMode(text, SML, st, flatten, max);
    segs := out.value;
  }

  /** The state after a line, which the next line starts from. */
  function StateAfter(text: string, pos: nat, st: State): State
    requires pos <= |text| && Consistent(st)
    decreases |text| - pos
  {
    if pos == |text| then st
    else
      SmlAdvances(text, pos, st);
      var t := SmlToken(text, pos, st);
      StateAfter(text, t.pos, t.state)
  }

  /** Over whole lines too the depth is positive exactly inside a comment. */
  lemma {:induction false} ConsistentAfterLine(text: string, pos: nat, st: State)
    requires pos <= |text| && Consistent(st)
    ensures Consistent(StateAfter(text, pos, st))
    decreases |text| - pos
  {
    if pos < |text| {
      SmlAdvances(text, pos, st);
      var t := SmlToken(text, pos, st);
      ConsistentAfterLine(text, t.pos, t.state);
    }
  }

  lemma {:induction false} BlanksAreRead(text: string, a: nat, b: nat, d: nat)
    requires a <= b <= |text| && forall k: nat | a <= k < b :: IsBlank(text[k])
    ensures d > 0 ==> Read(text, a, d) == Read(text, b, d)
    decreases b - a
  {
    if a < b {
      BlanksAreRead(text, a + 1, b, d);
    }
  }

  /** Where the line is in `depth` comments at `start`: it goes on as ordinary text from where they end, and leaves
      as many open as the grammar says when they do not. */
  lemma {:induction false} DepthAfterLine(text: string, pos: nat, st: State, start: nat, depth: nat)
    requires pos <= |text| && Consistent(st)
    requires if st.tokenize == TokenComment then start == pos && depth == st.commentDepth
             else InComment(text, pos, st, start, depth)
    ensures forall p: nat | CommentsEnd(text, start, depth, p) ::
              p <= |text| && StateAfter(text, pos, st) == StateAfter(text, p, State(TokenBase, 0))
    ensures forall e: nat | e > 0 ::
              StillOpen(text, start, depth, e) ==> StateAfter(text, pos, st) == State(TokenComment, e)
    ensures (forall p: nat :: !CommentsEnd(text, start, depth, p)) ==>
              StillOpen(text, start, depth, StateAfter(text, pos, st).commentDepth)
    decreases |text| - pos
  {
    hide CommentsEnd, StillOpen, Read, CommentToken;
    var blank := EatWhile(text, pos, IsBlank);
    if st.tokenize == TokenComment && blank > pos {
      BlanksAreRead(text, pos, blank, depth);
      SameReading(text, pos, blank, depth);
      DepthAfterLine(text, blank, st, blank, depth);
      OpenIsSome(text, blank, depth, StateAfter(text, blank, st).commentDepth);
    } else if pos == |text| {
      NothingToRead(text, depth);
    } else {
      CommentTokens(text, pos, st, start, depth);
      SmlAdvances(text, pos, st);
      var t := SmlToken(text, pos, st);
      assert t.state == State(TokenBase, 0) ==> CommentsEnd(text, start, depth, t.pos);
    }
  }

  lemma SameReading(text: string, a: nat, b: nat, d: nat)
    requires a <= |text| && b <= |text| && Read(text, a, d) == Read(text, b, d)
    ensures forall p: nat :: CommentsEnd(text, a, d, p) <==> CommentsEnd(text, b, d, p)
    ensures forall e: nat | e > 0 :: StillOpen(text, a, d, e) <==> StillOpen(text, b, d, e)
  {
    forall p: nat ensures CommentsEnd(text, a, d, p) <==> CommentsEnd(text, b, d, p) {
      ReadsToEnd(text, a, d, p);
      ReadsToEnd(text, b, d, p);
    }
    forall e: nat | e > 0 ensures StillOpen(text, a, d, e) <==> StillOpen(text, b, d, e) {
      ReadsOpen(text, a, d, e);
      ReadsOpen(text, b, d, e);
    }
  }

  lemma NothingToRead(text: string, d: nat)
    requires d > 0
    ensures forall p: nat :: !CommentsEnd(text, |text|, d, p)
    ensures forall e: nat | e > 0 :: StillOpen(text, |text|, d, e) <==> e == d
  {
    forall p: nat ensures !CommentsEnd(text, |text|, d, p) {
      ReadsToEnd(text, |text|, d, p);
    }
    forall e: nat | e > 0 ensures StillOpen(text, |text|, d, e) <==> e == d {
      ReadsOpen(text, |text|, d, e);
    }
  }
}
