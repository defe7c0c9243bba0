/**
 * What the lexer of src/tokenizer.rs produces, stated independently of the
 * loop that produces it: token types and their texts, the fixed-token
 * cascade, the shape of each token class, and two byte automata, one for
 * what the lexer skips between tokens (whitespace and `//` comments) and one
 * for the inside of a string literal.  Both automata say which newlines the
 * lexer records in `line_breaks`.
 */
module TokenSpec {
  import Kw
  import Op
  import opened Wrappers

  datatype TokenType =
    | And | Or | Xor | Not
    | Equals | NotEquals | LessThan | GreaterThan | LessEqual | GreaterEqual
    | Feather | Arrow
    | Ampersand | Pipe | Caret | Tilde | LShift | RShift
    | Incr | Decr | Plus | Minus | Mul | Div | Pow | Modulo
    | Pub
    | Packed | Struct | Enum | Union
    | Fn | Defer | If | Then | Else | While | Loop | Continue | Break
    | Equal | Semi | Colon | Comma | Dot | LParens | RParens | LBracket | RBracket | LBrace | RBrace
    | String | Ident | Num

  /** Keywords, operators and punctuation: the types with a fixed text. */
  predicate IsFixed(t: TokenType)
  {
    !(t.String? || t.Ident? || t.Num?)
  }

  /** The constant of a fixed type; empty for the other three. */
  function Text(t: TokenType): (s: seq<bv8>)
    ensures IsFixed(t) <==> |s| > 0
    ensures |s| <= 8
  {
    match t
    case And => Kw.And
    case Or => Kw.Or
    case Xor => Kw.Xor
    case Not => Kw.Not
    case Equals => Op.Equals
    case NotEquals => Op.NotEquals
    case LessThan => Op.LessThan
    case GreaterThan => Op.GreaterThan
    case LessEqual => Op.LessEqual
    case GreaterEqual => Op.GreaterEqual
    case Feather => Op.Feather
    case Arrow => Op.Arrow
    case Ampersand => Op.Ampersand
    case Pipe => Op.Pipe
    case Caret => Op.Caret
    case Tilde => Op.Tilde
    case LShift => Op.LShift
    case RShift => Op.RShift
    case Incr => Op.Incr
    case Decr => Op.Decr
    case Plus => Op.Plus
    case Minus => Op.Minus
    case Mul => Op.Mul
    case Div => Op.Div
    case Pow => Op.Pow
    case Modulo => Op.Modulo
    case Pub => Kw.Pub
    case Packed => Kw.Packed
    case Struct => Kw.Struct
    case Enum => Kw.Enum
    case Union => Kw.Union
    case Fn => Kw.Fn
    case Defer => Kw.Defer
    case If => Kw.If
    case Then => Kw.Then
    case Else => Kw.Else
    case While => Kw.While
    case Loop => Kw.Loop
    case Continue => Kw.Continue
    case Break => Kw.Break
    case Equal => Op.Equal
    case Semi => Op.Semi
    case Colon => Op.Colon
    case Comma => Op.Comma
    case Dot => Op.Dot
    case LParens => Op.LParens
    case RParens => Op.RParens
    case LBracket => Op.LBracket
    case RBracket => Op.RBracket
    case LBrace => Op.LBrace
    case RBrace => Op.RBrace
    case String => []
    case Ident => []
    case Num => []
  }

  predicate HasPrefix(s: seq<bv8>, p: seq<bv8>)
  {
    |p| <= |s| && s[..|p|] == p
  }

  /*
   * The lexer's keywords and operators, grouped by the length of their text
   * and listed in the order the source tries them.  The longer operator
   * blocks are split in parts small enough to check by enumeration.
   */
  const Keywords8: seq<TokenType> := [Continue]
  const Keywords6: seq<TokenType> := [Packed, Struct]
  const Keywords5: seq<TokenType> := [Union, Defer, While, Break]
  const Keywords4: seq<TokenType> := [Enum, Then, Else, Loop]
  const Keywords3: seq<TokenType> := [And, Xor, Not, Pub]
  const Keywords2: seq<TokenType> := [Or, Fn, If]
  const TwoByteOps1: seq<TokenType> := [Equals, NotEquals, LessEqual, GreaterEqual, Feather, Arrow]
  const TwoByteOps2: seq<TokenType> := [LShift, RShift, Incr, Decr, Pow]
  const OneByteOps1: seq<TokenType> := [Modulo, LessThan, GreaterThan, Ampersand, Pipe, Caret]
  const OneByteOps2: seq<TokenType> := [Tilde, Plus, Minus, Mul, Div]
  const OneByteOps3: seq<TokenType> := [Equal, Semi, Colon, Comma, Dot, LParens]
  const OneByteOps4: seq<TokenType> := [RParens, LBracket, RBracket, LBrace, RBrace]

  /**
   * The lexer's fixed-token blocks in the order it tries them.  Each block
   * is one `token_len = L; if input.len() >= L { match &input[..L] { … } }`
   * of the source: keywords of length 8, 6, 5, 4, 3 and 2, then the two-byte
   * and the one-byte operators.
   */
  const Blocks: seq<seq<TokenType>> :=
    [
      [Continue],
      [Packed, Struct],
      [Union, Defer, While, Break],
      [Enum, Then, Else, Loop],
      [And, Xor, Not, Pub],
      [Or, Fn, If],
      [Equals, NotEquals, LessEqual, GreaterEqual, Feather, Arrow, LShift, RShift, Incr, Decr, Pow],
      [Modulo, LessThan, GreaterThan, Ampersand, Pipe, Caret, Tilde, Plus, Minus, Mul, Div, Equal, Semi, Colon, Comma, Dot, LParens, RParens, LBracket, RBracket, LBrace, RBrace]
    ]

  /** The token_len of each block. */
  const BlockLens: seq<nat> := [8, 6, 5, 4, 3, 2, 2, 1]

  /** The blocks are the groups above. */
  lemma BlocksAreTheGroups()
    ensures Blocks[0] == Keywords8 && Blocks[1] == Keywords6 && Blocks[2] == Keywords5
    ensures Blocks[3] == Keywords4 && Blocks[4] == Keywords3 && Blocks[5] == Keywords2
    ensures Blocks[6] == TwoByteOps1 + TwoByteOps2
    ensures Blocks[7] == OneByteOps1 + OneByteOps2 + OneByteOps3 + OneByteOps4
  {
  }

  /** The keyword `continue`. */
  lemma Keywords8Length(t: TokenType)
    requires t in Keywords8
    ensures IsFixed(t) && |Text(t)| == 8
  {
  }

  /** The six-byte keywords. */
  lemma Keywords6Length(t: TokenType)
    requires t in Keywords6
    ensures IsFixed(t) && |Text(t)| == 6
  {
  }

  /** The five-byte keywords. */
  lemma Keywords5Length(t: TokenType)
    requires t in Keywords5
    ensures IsFixed(t) && |Text(t)| == 5
  {
  }

  /** The four-byte keywords. */
  lemma Keywords4Length(t: TokenType)
    requires t in Keywords4
    ensures IsFixed(t) && |Text(t)| == 4
  {
  }

  /** The three-byte keywords. */
  lemma Keywords3Length(t: TokenType)
    requires t in Keywords3
    ensures IsFixed(t) && |Text(t)| == 3
  {
  }

  /** The two-byte keywords. */
  lemma Keywords2Length(t: TokenType)
    requires t in Keywords2
    ensures IsFixed(t) && |Text(t)| == 2
  {
  }

  /** The two-byte operators, first part. */
  lemma TwoByteOps1Length(t: TokenType)
    requires t in TwoByteOps1
    ensures IsFixed(t) && |Text(t)| == 2
  {
  }

  /** The two-byte operators, second part. */
  lemma TwoByteOps2Length(t: TokenType)
    requires t in TwoByteOps2
    ensures IsFixed(t) && |Text(t)| == 2
  {
  }

  /** The one-byte operators, first part. */
  lemma OneByteOps1Length(t: TokenType)
    requires t in OneByteOps1
    ensures IsFixed(t) && |Text(t)| == 1
  {
  }

  /** The one-byte operators, second part. */
  lemma OneByteOps2Length(t: TokenType)
    requires t in OneByteOps2
    ensures IsFixed(t) && |Text(t)| == 1
  {
  }

  /** The one-byte operators, third part. */
  lemma OneByteOps3Length(t: TokenType)
    requires t in OneByteOps3
    ensures IsFixed(t) && |Text(t)| == 1
  {
  }

  /** The one-byte operators, fourth part. */
  lemma OneByteOps4Length(t: TokenType)
    requires t in OneByteOps4
    ensures IsFixed(t) && |Text(t)| == 1
  {
  }

  /** Every entry of block i is a fixed type whose text has length BlockLens[i]. */
  lemma BlocksHaveTheirLength(i: nat, t: TokenType)
    requires i < |Blocks| && t in Blocks[i]
    ensures IsFixed(t) && |Text(t)| == BlockLens[i]
  {
    BlocksAreTheGroups();
    if i == 0 {
      Keywords8Length(t);
    } else if i == 1 {
      Keywords6Length(t);
    } else if i == 2 {
      Keywords5Length(t);
    } else if i == 3 {
      Keywords4Length(t);
    } else if i == 4 {
      Keywords3Length(t);
    } else if i == 5 {
      Keywords2Length(t);
    } else if i == 6 {
      if t in TwoByteOps1 {
        TwoByteOps1Length(t);
      } else {
        TwoByteOps2Length(t);
      }
    } else if t in OneByteOps1 {
      OneByteOps1Length(t);
    } else if t in OneByteOps2 {
      OneByteOps2Length(t);
    } else if t in OneByteOps3 {
      OneByteOps3Length(t);
    } else {
      OneByteOps4Length(t);
    }
  }

  /** The block every keyword and operator belongs to. */
  function BlockOf(u: TokenType): (i: nat)
    requires IsFixed(u)
    ensures i < |Blocks| && u in Blocks[i]
  {
    match u
    case Continue => 0
    case Packed | Struct => 1
    case Union | Defer | While | Break => 2
    case Enum | Then | Else | Loop => 3
    case And | Xor | Not | Pub => 4
    case Or | Fn | If => 5
    case Equals | NotEquals | LessEqual | GreaterEqual | Feather | Arrow | LShift | RShift | Incr | Decr | Pow => 6
    case Modulo | LessThan | GreaterThan | Ampersand | Pipe | Caret | Tilde | Plus | Minus | Mul | Div | Equal | Semi | Colon | Comma | Dot | LParens | RParens | LBracket | RBracket | LBrace | RBrace => 7
  }


  /** The first candidate whose text starts s (one `match` of the source). */
  function MatchIn(s: seq<bv8>, cands: seq<TokenType>): (r: Option<TokenType>)
    ensures r.Some? ==> HasPrefix(s, Text(r.value))
  {
    if cands == [] then None
    else if HasPrefix(s, Text(cands[0])) then Some(cands[0])
    else MatchIn(s, cands[1..])
  }

  /** MatchIn finds a candidate, and misses only when no candidate's text starts s. */
  lemma {:induction false} MatchInFinds(s: seq<bv8>, cands: seq<TokenType>)
    ensures MatchIn(s, cands).Some? ==> MatchIn(s, cands).value in cands
    ensures MatchIn(s, cands).None? ==> forall c :: c in cands ==> !HasPrefix(s, Text(c))
  {
    if cands != [] && !HasPrefix(s, Text(cands[0])) {
      MatchInFinds(s, cands[1..]);
      forall c | c in cands
        ensures c == cands[0] || c in cands[1..]
      {
        var i :| 0 <= i < |cands| && cands[i] == c;
        if i > 0 {
          assert cands[1..][i - 1] == c;
        }
      }
    }
  }

  /** The blocks from block i on, in order. */
  function MatchBlocks(s: seq<bv8>, i: nat): (r: Option<TokenType>)
    requires i <= |Blocks|
    ensures r.Some? ==> IsFixed(r.value) && HasPrefix(s, Text(r.value))
    decreases |Blocks| - i
  {
    if i == |Blocks| then None
    else
      match MatchIn(s, Blocks[i])
      case Some(t) =>
        MatchInFinds(s, Blocks[i]);
        BlocksHaveTheirLength(i, t);
        Some(t)
      case None => MatchBlocks(s, i + 1)
  }

  /** The keyword or operator the lexer reads at the start of s, if any. */
  function MatchFixed(s: seq<bv8>): (r: Option<TokenType>)
    ensures r.Some? ==> IsFixed(r.value) && HasPrefix(s, Text(r.value))
  {
    MatchBlocks(s, 0)
  }

  /** An entry of a later block is no longer than an entry of an earlier one. */
  lemma LaterBlocksAreShorter(i: nat, j: nat, t: TokenType, u: TokenType)
    requires i <= j < |Blocks| && t in Blocks[i] && u in Blocks[j]
    ensures |Text(u)| <= |Text(t)|
  {
    BlocksHaveTheirLength(i, t);
    BlocksHaveTheirLength(j, u);
    BlockLensDecrease(i, j);
  }

  /** The block lengths never grow from one block to a later one. */
  lemma BlockLensDecrease(i: nat, j: nat)
    requires i <= j < |BlockLens|
    ensures BlockLens[j] <= BlockLens[i]
  {
  }

  lemma {:induction false} MatchBlocksLongest(s: seq<bv8>, i: nat, j: nat, u: TokenType)
    requires i <= j < |Blocks| && u in Blocks[j] && HasPrefix(s, Text(u))
    ensures MatchBlocks(s, i).Some?
    ensures |Text(u)| <= |Text(MatchBlocks(s, i).value)|
    decreases j - i
  {
    MatchInFinds(s, Blocks[i]);
    match MatchIn(s, Blocks[i])
    case Some(t) => LaterBlocksAreShorter(i, j, t, u);
    case None =>
      assert i != j;
      MatchBlocksLongest(s, i + 1, j, u);
  }

  /**
   * The cascade finds the longest keyword or operator that starts s, and
   * finds one whenever one starts s.
   */
  lemma MatchFixedLongest(s: seq<bv8>, u: TokenType)
    requires IsFixed(u) && HasPrefix(s, Text(u))
    ensures MatchFixed(s).Some?
    ensures |Text(u)| <= |Text(MatchFixed(s).value)|
  {
    MatchBlocksLongest(s, 0, BlockOf(u), u);
  }

  /** No keyword or operator starts s. */
  ghost predicate NoFixed(s: seq<bv8>)
  {
    forall u :: IsFixed(u) ==> !HasPrefix(s, Text(u))
  }

  /** The cascade finds nothing exactly when no keyword or operator starts s. */
  lemma MatchFixedNone(s: seq<bv8>)
    ensures MatchFixed(s).None? <==> NoFixed(s)
  {
    if !NoFixed(s) {
      var u :| IsFixed(u) && HasPrefix(s, Text(u));
      MatchFixedLongest(s, u);
    }
  }

  /** A text that starts s agrees with s on its first two bytes. */
  lemma PrefixBytes(s: seq<bv8>, t: TokenType)
    requires IsFixed(t) && HasPrefix(s, Text(t))
    ensures s[0] == Text(t)[0]
    ensures |Text(t)| >= 2 ==> s[1] == Text(t)[1]
  {
    assert s[..|Text(t)|][0] == s[0];
  }

  /** Input starting `==` reads as Equals, not as Equal followed by Equal. */
  lemma EqualsExample(s: seq<bv8>)
    requires |s| >= 2 && s[0] == 0x3D && s[1] == 0x3D
    ensures MatchFixed(s) == Some(Equals)
  {
    MatchFixedLongest(s, Equals);
    PrefixBytes(s, MatchFixed(s).value);
  }

  /** Input starting `->` reads as Arrow, not as Minus. */
  lemma ArrowExample(s: seq<bv8>)
    requires |s| >= 2 && s[0] == 0x2D && s[1] == 0x3E
    ensures MatchFixed(s) == Some(Arrow)
  {
    MatchFixedLongest(s, Arrow);
    PrefixBytes(s, MatchFixed(s).value);
  }

  /** Input starting `>-` reads as Feather, not as GreaterThan. */
  lemma FeatherExample(s: seq<bv8>)
    requires |s| >= 2 && s[0] == 0x3E && s[1] == 0x2D
    ensures MatchFixed(s) == Some(Feather)
  {
    MatchFixedLongest(s, Feather);
    PrefixBytes(s, MatchFixed(s).value);
  }

  /** Keywords are bare prefixes: input starting `if`, such as `iffy`, reads as the keyword If. */
  lemma KeywordPrefixExample(s: seq<bv8>)
    requires |s| >= 2 && s[0] == 0x69 && s[1] == 0x66
    ensures MatchFixed(s) == Some(If)
  {
    MatchFixedLongest(s, If);
    PrefixBytes(s, MatchFixed(s).value);
  }

  /** Input starting `;` reads as Semi. */
  lemma SemiExample(s: seq<bv8>)
    requires |s| >= 1 && s[0] == 0x3B
    ensures MatchFixed(s) == Some(Semi)
  {
    MatchFixedLongest(s, Semi);
    PrefixBytes(s, MatchFixed(s).value);
  }

  // ---------------------------------------------------------------------
  // Bytes
  // ---------------------------------------------------------------------

  const NL: bv8 := 0x0A
  const QUOTE: bv8 := 0x22
  const DOT: bv8 := 0x2E
  const SLASH: bv8 := 0x2F
  const BACKSLASH: bv8 := 0x5C
  const UNDERSCORE: bv8 := 0x5F

  /** u8::is_ascii_whitespace: space, tab, line feed, form feed, carriage return. */
  predicate IsWs(c: bv8)
  {
    c == 0x20 || c == 0x09 || c == NL || c == 0x0C || c == 0x0D
  }

  predicate IsDigit(c: bv8)
  {
    0x30 <= c <= 0x39
  }

  predicate IsAlpha(c: bv8)
  {
    (0x41 <= c <= 0x5A) || (0x61 <= c <= 0x7A)
  }

  predicate IsIdentStart(c: bv8)
  {
    IsAlpha(c) || c == UNDERSCORE
  }

  predicate IsIdentCont(c: bv8)
  {
    IsAlpha(c) || IsDigit(c) || c == UNDERSCORE
  }

  /** `//` starts at i. */
  predicate IsCommentStart(code: seq<bv8>, i: nat)
  {
    i + 1 < |code| && code[i] == SLASH && code[i + 1] == SLASH
  }

  /** `\"` starts at i. */
  predicate IsEscapedQuote(code: seq<bv8>, i: nat)
  {
    i + 1 < |code| && code[i] == BACKSLASH && code[i + 1] == QUOTE
  }

  // ---------------------------------------------------------------------
  // Outputs
  // ---------------------------------------------------------------------

  /** A token: its text is code[offset .. offset + len]. */
  datatype Span = Span(offset: nat, len: nat, line: nat, col: int)

  function End(sp: Span): nat
  {
    sp.offset + sp.len
  }

  datatype Tokens = Tokens(
    code: seq<bv8>,
    lineBreaks: seq<nat>,   // offsets of the recorded '\n' bytes
    spans: seq<Span>,
    types: seq<TokenType>)

  /** The three ways the lexer panics. */
  datatype Panic =
    | IndexOutOfBounds(at: nat)    // input[0] on an empty rest of input
    | UnfinishedString(start: nat) // "Unfinished string at line …"
    | CannotParse(at: nat)         // "Cannot parse token at line …"

  // ---------------------------------------------------------------------
  // Between tokens
  // ---------------------------------------------------------------------

  /**
   * Where the lexer is while skipping: at the top of its main loop (where
   * the newline loop runs), inside the whitespace loop, on the first `/` of
   * a comment, or inside a comment.
   */
  datatype GapState = Top | Blank | Slash | Comment

  /** The skip automaton reads the byte at i; None: a token starts here. */
  function GapStep(code: seq<bv8>, i: nat, st: GapState): Option<GapState>
    requires i < |code|
  {
    match st
    case Top =>
      if code[i] == NL then Some(Top)
      else if IsWs(code[i]) then Some(Blank)
      else if IsCommentStart(code, i) then Some(Slash)
      else None
    case Blank =>
      if IsWs(code[i]) then Some(Blank)
      else if IsCommentStart(code, i) then Some(Slash)
      else None
    case Slash => Some(Comment)
    case Comment => if code[i] == NL then Some(Top) else Some(Comment)
  }

  /**
   * The newline at i is recorded: in the newline loop, which also takes the
   * newline that ends a comment.  A newline read by the whitespace loop is not.
   */
  predicate GapRecords(code: seq<bv8>, i: nat, st: GapState)
    requires i < |code|
  {
    code[i] == NL && (st.Top? || st.Comment?)
  }

  /** The state of an automaton and the newlines it has recorded. */
  datatype Scan<S> = Scan(state: S, breaks: seq<nat>)

  /** Skipping code[lo..hi] from the top of the main loop; None if a token interrupts it. */
  function GapScan(code: seq<bv8>, lo: nat, hi: nat): Option<Scan<GapState>>
    requires lo <= hi <= |code|
    decreases hi - lo
  {
    if hi == lo then Some(Scan(Top, []))
    else
      match GapScan(code, lo, hi - 1)
      case None => None
      case Some(sc) =>
        match GapStep(code, hi - 1, sc.state)
        case None => None
        case Some(st) =>
          Some(Scan(st, sc.breaks + if GapRecords(code, hi - 1, sc.state) then [hi - 1] else []))
  }

  function GapBreaks(code: seq<bv8>, lo: nat, hi: nat): seq<nat>
    requires lo <= hi <= |code|
  {
    match GapScan(code, lo, hi)
    case None => []
    case Some(sc) => sc.breaks
  }

  /** code[lo..hi] is skipped and the lexer then starts a token at hi. */
  predicate GapBefore(code: seq<bv8>, lo: nat, hi: nat)
    requires lo <= hi < |code|
  {
    match GapScan(code, lo, hi)
    case None => false
    case Some(sc) => (sc.state.Top? || sc.state.Blank?) && GapStep(code, hi, sc.state).None?
  }

  /** code[lo..] is skipped to the end, leaving the main loop at its top. */
  predicate GapAtEnd(code: seq<bv8>, lo: nat)
    requires lo <= |code|
  {
    match GapScan(code, lo, |code|)
    case None => false
    case Some(sc) => sc.state.Top?
  }

  // ---------------------------------------------------------------------
  // Inside a string
  // ---------------------------------------------------------------------

  /** In the body, on the backslash of `\"`, or past the closing quote. */
  datatype StrState = Body | Escape | Closed

  function StrStep(code: seq<bv8>, i: nat, st: StrState): Option<StrState>
    requires i < |code|
  {
    match st
    case Body =>
      if IsEscapedQuote(code, i) then Some(Escape)
      else if code[i] == QUOTE then Some(Closed)
      else Some(Body)
    case Escape => Some(Body)
    case Closed => None
  }

  /** Every newline in a string body is recorded. */
  predicate StrRecords(code: seq<bv8>, i: nat, st: StrState)
    requires i < |code|
  {
    st.Body? && code[i] == NL
  }

  /** Reading code[lo..hi] just after an opening quote. */
  function StrScan(code: seq<bv8>, lo: nat, hi: nat): Option<Scan<StrState>>
    requires lo <= hi <= |code|
    decreases hi - lo
  {
    if hi == lo then Some(Scan(Body, []))
    else
      match StrScan(code, lo, hi - 1)
      case None => None
      case Some(sc) =>
        match StrStep(code, hi - 1, sc.state)
        case None => None
        case Some(st) =>
          Some(Scan(st, sc.breaks + if StrRecords(code, hi - 1, sc.state) then [hi - 1] else []))
  }

  // ---------------------------------------------------------------------
  // Tokens
  // ---------------------------------------------------------------------

  /** The number of dots in code[lo..hi]. */
  function Dots(code: seq<bv8>, lo: nat, hi: nat): nat
    requires lo <= hi <= |code|
    decreases hi - lo
  {
    if lo == hi then 0 else Dots(code, lo, hi - 1) + (if code[hi - 1] == DOT then 1 else 0)
  }

  /** code[off..end] is a string literal: from the opening quote to the first quote not part of `\"`. */
  ghost predicate StringOk(code: seq<bv8>, off: nat, end: nat)
    requires off < end <= |code|
  {
    && code[off] == QUOTE
    && StrScan(code, off + 1, end).Some?
    && StrScan(code, off + 1, end).value.state.Closed?
  }

  /**
   * code[off..end] is a maximal identifier; a byte follows it (the lexer
   * panics at the end of the input).
   */
  predicate IdentOk(code: seq<bv8>, off: nat, end: nat)
    requires off < end <= |code|
  {
    && IsIdentStart(code[off])
    && (forall j :: off < j < end ==> IsIdentCont(code[j]))
    && end < |code| && !IsIdentCont(code[end])
  }

  /** code[off..end] is a maximal number: digits with at most one dot, a second dot ending it. */
  predicate NumOk(code: seq<bv8>, off: nat, end: nat)
    requires off < end <= |code|
  {
    && IsDigit(code[off])
    && (forall j :: off < j < end ==> IsDigit(code[j]) || code[j] == DOT)
    && Dots(code, off, end) <= 1
    && end < |code|
    && !IsDigit(code[end])
    && (code[end] == DOT ==> Dots(code, off, end) == 1)
  }

  /** code[off..end] holds a token of type t as the lexer reads it at off. */
  ghost predicate ClassOk(code: seq<bv8>, off: nat, end: nat, t: TokenType)
    requires off < end <= |code|
  {
    if t.String? then NoFixed(code[off..]) && StringOk(code, off, end)
    else if t.Ident? then NoFixed(code[off..]) && IdentOk(code, off, end)
    else if t.Num? then NoFixed(code[off..]) && NumOk(code, off, end)
    else MatchFixed(code[off..]) == Some(t) && end - off == |Text(t)|
  }

  /** The span holds a token of type t as the lexer reads it at span.offset. */
  ghost predicate TokenOk(code: seq<bv8>, sp: Span, t: TokenType)
  {
    0 < sp.len && End(sp) <= |code| && ClassOk(code, sp.offset, End(sp), t)
  }

  /** Where the gap before token k starts: after token k - 1, or at offset 0. */
  function GapStart(spans: seq<Span>, k: nat): nat
    requires k <= |spans|
  {
    if k == 0 then 0 else End(spans[k - 1])
  }

  /** Token k lies inside the code, after the token before it, and is not empty. */
  ghost predicate InPlace(code: seq<bv8>, spans: seq<Span>, k: nat)
    requires k < |spans|
  {
    GapStart(spans, k) <= spans[k].offset && 0 < spans[k].len && End(spans[k]) <= |code|
  }

  /** Tokens lie inside the code, in order, without overlapping. */
  ghost predicate Ordered(code: seq<bv8>, spans: seq<Span>, types: seq<TokenType>)
  {
    && |spans| == |types|
    && forall k :: 0 <= k < |spans| ==> InPlace(code, spans, k)
  }

  /** Token k is what the lexer reads where it stops skipping the gap after token k - 1. */
  ghost predicate LexedAt(code: seq<bv8>, spans: seq<Span>, types: seq<TokenType>, k: nat)
    requires k < |spans| && k < |types| && InPlace(code, spans, k)
  {
    TokenOk(code, spans[k], types[k]) && GapBefore(code, GapStart(spans, k), spans[k].offset)
  }

  /**
   * The tokens are what the lexer reads: each is preceded by bytes the lexer
   * skips, and each is the token the lexer reads where skipping stops.
   */
  ghost predicate Lexed(code: seq<bv8>, spans: seq<Span>, types: seq<TokenType>)
  {
    && Ordered(code, spans, types)
    && forall k :: 0 <= k < |spans| ==> LexedAt(code, spans, types, k)
  }

  /** The newlines a string token records. */
  ghost function TokenBreaks(code: seq<bv8>, sp: Span, t: TokenType): seq<nat>
  {
    if t.String? && 0 < sp.len && End(sp) <= |code| then
      match StrScan(code, sp.offset + 1, End(sp))
      case None => []
      case Some(sc) => sc.breaks
    else []
  }

  /** The newlines recorded in the gap before token k. */
  ghost function GapBreaksBefore(code: seq<bv8>, spans: seq<Span>, types: seq<TokenType>, k: nat): seq<nat>
    requires Ordered(code, spans, types) && k < |spans|
  {
    assert InPlace(code, spans, k);
    GapBreaks(code, GapStart(spans, k), spans[k].offset)
  }

  /** The newlines recorded while reading the first k tokens and the gaps before them. */
  ghost function BreaksTo(code: seq<bv8>, spans: seq<Span>, types: seq<TokenType>, k: nat): seq<nat>
    requires Ordered(code, spans, types) && k <= |spans|
  {
    if k == 0 then []
    else
      BreaksTo(code, spans, types, k - 1)
        + GapBreaksBefore(code, spans, types, k - 1)
        + TokenBreaks(code, spans[k - 1], types[k - 1])
  }

  /** The newlines recorded while the lexer reads code[..upTo], upTo after the last token. */
  ghost function Breaks(code: seq<bv8>, spans: seq<Span>, types: seq<TokenType>, upTo: nat): seq<nat>
    requires Ordered(code, spans, types)
    requires GapStart(spans, |spans|) <= upTo <= |code|
  {
    BreaksTo(code, spans, types, |spans|) + GapBreaks(code, GapStart(spans, |spans|), upTo)
  }

  /**
   * `line_start` once the first k tokens are read: the byte after the last
   * newline recorded between tokens, or the newline itself when it was
   * recorded inside a string.
   */
  ghost function LineStartTo(code: seq<bv8>, spans: seq<Span>, types: seq<TokenType>, k: nat): int
    requires Ordered(code, spans, types) && k <= |spans|
  {
    if k == 0 then 0
    else
      AfterToken(TokenBreaks(code, spans[k - 1], types[k - 1]), GapBreaksBefore(code, spans, types, k - 1),
                 LineStartTo(code, spans, types, k - 1))
  }

  /**
   * `line_start` after a gap that recorded `gb` and a token that recorded
   * `tb`, when it was `prev` before the gap.
   */
  function AfterToken(tb: seq<nat>, gb: seq<nat>, prev: int): int
  {
    if |tb| > 0 then tb[|tb| - 1]
    else if |gb| > 0 then gb[|gb| - 1] + 1
    else prev
  }

  /** `line_start` once the lexer has read code[..upTo], upTo after the last token. */
  ghost function LineStart(code: seq<bv8>, spans: seq<Span>, types: seq<TokenType>, upTo: nat): int
    requires Ordered(code, spans, types)
    requires GapStart(spans, |spans|) <= upTo <= |code|
  {
    var gb := GapBreaks(code, GapStart(spans, |spans|), upTo);
    if |gb| > 0 then gb[|gb| - 1] + 1 else LineStartTo(code, spans, types, |spans|)
  }

  /**
   * Line and column of token k: the line counts the breaks recorded up to
   * the token's end (a string's own newlines included), the column is the
   * offset from the line start.
   */
  ghost predicate PlacedAt(code: seq<bv8>, spans: seq<Span>, types: seq<TokenType>, k: nat)
    requires Ordered(code, spans, types) && k < |spans|
  {
    && spans[k].line == 1 + |BreaksTo(code, spans, types, k + 1)|
    && spans[k].col == spans[k].offset - LineStartTo(code, spans, types, k + 1)
  }

  /** Every token carries the line and column the lexer's counters give it. */
  ghost predicate Positions(code: seq<bv8>, spans: seq<Span>, types: seq<TokenType>)
    requires Ordered(code, spans, types)
  {
    forall k :: 0 <= k < |spans| ==> PlacedAt(code, spans, types, k)
  }

  // ---------------------------------------------------------------------
  // Recorded line breaks
  // ---------------------------------------------------------------------

  /** Entry i of bs is the offset of a newline of code inside [lo, hi). */
  predicate NewlineAt(code: seq<bv8>, bs: seq<nat>, i: nat, lo: nat, hi: nat)
    requires i < |bs|
  {
    lo <= bs[i] < hi && bs[i] < |code| && code[bs[i]] == NL
  }

  /** Entry i of bs is below entry j. */
  predicate Precedes(bs: seq<nat>, i: nat, j: nat)
    requires i < j < |bs|
  {
    bs[i] < bs[j]
  }

  /** bs lists offsets of newlines of code inside [lo, hi), strictly increasing. */
  predicate NewlinesIn(code: seq<bv8>, bs: seq<nat>, lo: nat, hi: nat)
  {
    && (forall i :: 0 <= i < |bs| ==> NewlineAt(code, bs, i, lo, hi))
    && (forall i, j :: 0 <= i < j < |bs| ==> Precedes(bs, i, j))
  }

  /** Newlines of two adjacent ranges, one after the other. */
  lemma NewlinesConcat(code: seq<bv8>, a: seq<nat>, b: seq<nat>, lo: nat, mid: nat, hi: nat)
    ensures lo <= mid <= hi && NewlinesIn(code, a, lo, mid) && NewlinesIn(code, b, mid, hi) ==>
      NewlinesIn(code, a + b, lo, hi)
  {
    if !(lo <= mid <= hi && NewlinesIn(code, a, lo, mid) && NewlinesIn(code, b, mid, hi)) {
      return;
    }
    var ab := a + b;
    forall i | 0 <= i < |ab|
      ensures NewlineAt(code, ab, i, lo, hi)
    {
      if i < |a| {
        assert ab[i] == a[i] && NewlineAt(code, a, i, lo, mid);
      } else {
        assert ab[i] == b[i - |a|] && NewlineAt(code, b, i - |a|, mid, hi);
      }
    }
    forall i, j | 0 <= i < j < |ab|
      ensures Precedes(ab, i, j)
    {
      if j < |a| {
        assert ab[i] == a[i] && ab[j] == a[j] && Precedes(a, i, j);
      } else if i < |a| {
        assert ab[i] == a[i] && ab[j] == b[j - |a|];
        assert NewlineAt(code, a, i, lo, mid) && NewlineAt(code, b, j - |a|, mid, hi);
      } else {
        assert ab[i] == b[i - |a|] && ab[j] == b[j - |a|] && Precedes(b, i - |a|, j - |a|);
      }
    }
  }

  /** The skip automaton records newlines of the range it reads, in order. */
  lemma {:induction false} GapScanNewlines(code: seq<bv8>, lo: nat, hi: nat)
    requires lo <= hi <= |code|
    ensures GapScan(code, lo, hi).Some? ==> NewlinesIn(code, GapScan(code, lo, hi).value.breaks, lo, hi)
    decreases hi - lo
  {
    if hi > lo && GapScan(code, lo, hi).Some? {
      GapScanNewlines(code, lo, hi - 1);
      var sc := GapScan(code, lo, hi - 1).value;
      var rec := if GapRecords(code, hi - 1, sc.state) then [hi - 1] else [];
      NewlinesConcat(code, sc.breaks, rec, lo, hi - 1, hi);
    }
  }

  /** The string automaton records newlines of the range it reads, in order. */
  lemma {:induction false} StrScanNewlines(code: seq<bv8>, lo: nat, hi: nat)
    requires lo <= hi <= |code|
    ensures StrScan(code, lo, hi).Some? ==> NewlinesIn(code, StrScan(code, lo, hi).value.breaks, lo, hi)
    decreases hi - lo
  {
    if hi > lo && StrScan(code, lo, hi).Some? {
      StrScanNewlines(code, lo, hi - 1);
      var sc := StrScan(code, lo, hi - 1).value;
      var rec := if StrRecords(code, hi - 1, sc.state) then [hi - 1] else [];
      NewlinesConcat(code, sc.breaks, rec, lo, hi - 1, hi);
    }
  }

  /** The breaks recorded before and inside the first k tokens lie before the end of token k - 1. */
  lemma {:induction false} BreaksToNewlines(code: seq<bv8>, spans: seq<Span>, types: seq<TokenType>, k: nat)
    requires Ordered(code, spans, types) && k <= |spans|
    ensures NewlinesIn(code, BreaksTo(code, spans, types, k), 0, GapStart(spans, k))
    decreases k
  {
    if k > 0 {
      var sp := spans[k - 1];
      assert InPlace(code, spans, k - 1);
      BreaksToNewlines(code, spans, types, k - 1);
      var before := BreaksTo(code, spans, types, k - 1);
      var gap := GapBreaksBefore(code, spans, types, k - 1);
      var tok := TokenBreaks(code, sp, types[k - 1]);
      GapBreaksBeforeNewlines(code, spans, types, k - 1);
      TokenBreaksNewlines(code, sp, types[k - 1]);
      NewlinesConcat(code, before, gap, 0, GapStart(spans, k - 1), sp.offset);
      NewlinesConcat(code, before + gap, tok, 0, sp.offset, End(sp));
    }
  }

  lemma GapBreaksBeforeNewlines(code: seq<bv8>, spans: seq<Span>, types: seq<TokenType>, k: nat)
    requires Ordered(code, spans, types) && k < |spans|
    ensures GapStart(spans, k) <= spans[k].offset
    ensures NewlinesIn(code, GapBreaksBefore(code, spans, types, k), GapStart(spans, k), spans[k].offset)
  {
    assert InPlace(code, spans, k);
    GapScanNewlines(code, GapStart(spans, k), spans[k].offset);
  }

  lemma TokenBreaksNewlines(code: seq<bv8>, sp: Span, t: TokenType)
    ensures NewlinesIn(code, TokenBreaks(code, sp, t), sp.offset, End(sp))
  {
    if t.String? && 0 < sp.len && End(sp) <= |code| {
      StrScanNewlines(code, sp.offset + 1, End(sp));
      match StrScan(code, sp.offset + 1, End(sp))
      case None =>
      case Some(sc) => NewlinesWiden(code, sc.breaks, sp.offset, sp.offset + 1, End(sp));
    }
  }

  /** Newlines inside [lo, hi) are inside any range that starts lower. */
  lemma NewlinesWiden(code: seq<bv8>, bs: seq<nat>, lo': nat, lo: nat, hi: nat)
    requires lo' <= lo && NewlinesIn(code, bs, lo, hi)
    ensures NewlinesIn(code, bs, lo', hi)
  {
    forall i | 0 <= i < |bs|
      ensures NewlineAt(code, bs, i, lo', hi)
    {
      assert NewlineAt(code, bs, i, lo, hi);
    }
  }

  /** line_breaks: offsets of newlines of code[..upTo], strictly increasing. */
  lemma BreaksAreNewlines(code: seq<bv8>, spans: seq<Span>, types: seq<TokenType>, upTo: nat)
    requires Ordered(code, spans, types)
    requires GapStart(spans, |spans|) <= upTo <= |code|
    ensures NewlinesIn(code, Breaks(code, spans, types, upTo), 0, upTo)
  {
    var gs := GapStart(spans, |spans|);
    BreaksToNewlines(code, spans, types, |spans|);
    GapScanNewlines(code, gs, upTo);
    NewlinesConcat(code, BreaksTo(code, spans, types, |spans|), GapBreaks(code, gs, upTo), 0, gs, upTo);
  }

  /** A keyword or operator token's text is the constant of its type. */
  lemma FixedTokenText(code: seq<bv8>, sp: Span, t: TokenType)
    requires TokenOk(code, sp, t) && IsFixed(t)
    ensures code[sp.offset..End(sp)] == Text(t)
  {
    var s := code[sp.offset..];
    assert HasPrefix(s, Text(t));
    assert s[..sp.len] == code[sp.offset..End(sp)];
  }

  // ---------------------------------------------------------------------
  // Panics
  // ---------------------------------------------------------------------

  /** The identifier loop reads to the end of the code: every byte after the first continues it. */
  predicate IdentRunsOut(code: seq<bv8>, pos: nat)
    requires pos < |code|
  {
    forall j :: pos < j < |code| ==> IsIdentCont(code[j])
  }

  /** The number loop reads to the end of the code: digits and dots only, and at most one dot. */
  predicate NumRunsOut(code: seq<bv8>, pos: nat)
    requires pos < |code|
  {
    && (forall j :: pos < j < |code| ==> IsDigit(code[j]) || code[j] == DOT)
    && Dots(code, pos, |code|) <= 1
  }

  /** The string loop reaches the end of the code without a closing quote. */
  predicate StringOpen(code: seq<bv8>, pos: nat)
    requires pos < |code|
  {
    StrScan(code, pos + 1, |code|).Some? && !StrScan(code, pos + 1, |code|).value.state.Closed?
  }

  /**
   * The panic the lexer hits reading a token at pos, where skipping stops:
   * none when a keyword or operator starts there; otherwise an unfinished
   * string, an identifier or number loop reading past the end, or no token
   * class at all.
   */
  ghost function TokenPanic(code: seq<bv8>, pos: nat): Option<Panic>
    requires pos < |code|
  {
    if !NoFixed(code[pos..]) then None
    else if code[pos] == QUOTE then
      if StringOpen(code, pos) then Some(UnfinishedString(pos)) else None
    else if IsIdentStart(code[pos]) then
      if IdentRunsOut(code, pos) then Some(IndexOutOfBounds(|code|)) else None
    else if IsDigit(code[pos]) then
      if NumRunsOut(code, pos) then Some(IndexOutOfBounds(|code|)) else None
    else Some(CannotParse(pos))
  }

  /**
   * Skipping from lo reaches the end of the code inside the whitespace loop
   * or a comment, whose loops then read input[0] past the end.
   */
  predicate GapRunsOut(code: seq<bv8>, lo: nat)
    requires lo <= |code|
  {
    match GapScan(code, lo, |code|)
    case None => false
    case Some(sc) => sc.state.Blank? || sc.state.Comment?
  }

  /**
   * Having read the tokens spans/types, the lexer panics with p: at the end
   * of the code in the gap after them, or reading the token at pos where
   * that gap stops.
   */
  ghost predicate StuckAt(code: seq<bv8>, spans: seq<Span>, types: seq<TokenType>, pos: nat, p: Panic)
  {
    && Lexed(code, spans, types)
    && GapStart(spans, |spans|) <= pos <= |code|
    && if pos == |code| then
         GapRunsOut(code, GapStart(spans, |spans|)) && p == IndexOutOfBounds(|code|)
       else
         GapBefore(code, GapStart(spans, |spans|), pos) && TokenPanic(code, pos) == Some(p)
  }

  /** The lexer panics with p after reading some tokens. */
  ghost predicate Stuck(code: seq<bv8>, p: Panic)
  {
    exists spans, types, pos :: StuckAt(code, spans, types, pos, p)
  }

  /** spans/types are all the tokens of code: the rest after the last one is skipped to the end. */
  ghost predicate FullyLexed(code: seq<bv8>, spans: seq<Span>, types: seq<TokenType>)
  {
    && Lexed(code, spans, types)
    && GapStart(spans, |spans|) <= |code|
    && GapAtEnd(code, GapStart(spans, |spans|))
  }

  // ---------------------------------------------------------------------
  // The lexer is deterministic
  // ---------------------------------------------------------------------

  /** Skipping cannot go on past the place where a token starts. */
  lemma {:induction false} GapBeforeBlocks(code: seq<bv8>, lo: nat, a: nat, hi: nat)
    ensures lo <= a < hi <= |code| && GapBefore(code, lo, a) ==> GapScan(code, lo, hi).None?
    decreases hi
  {
    if lo <= a < hi - 1 && hi <= |code| && GapBefore(code, lo, a) {
      GapBeforeBlocks(code, lo, a, hi - 1);
    }
  }

  /** Skipping from lo stops at one place only. */
  lemma GapBeforeUnique(code: seq<bv8>, lo: nat, a: nat, b: nat)
    ensures lo <= a < |code| && lo <= b < |code| && GapBefore(code, lo, a) && GapBefore(code, lo, b) ==> a == b
  {
    GapBeforeBlocks(code, lo, a, b);
    GapBeforeBlocks(code, lo, b, a);
  }

  /** Nothing is read after a string's closing quote. */
  lemma {:induction false} StrClosedBlocks(code: seq<bv8>, lo: nat, m: nat, hi: nat)
    ensures && lo <= m < hi <= |code| && StrScan(code, lo, m).Some? && StrScan(code, lo, m).value.state.Closed?
            ==> StrScan(code, lo, hi).None?
    decreases hi
  {
    if lo <= m < hi - 1 && hi <= |code| && StrScan(code, lo, m).Some? && StrScan(code, lo, m).value.state.Closed? {
      StrClosedBlocks(code, lo, m, hi - 1);
    }
  }

  /** The dots counted up to m are among those counted up to any later hi. */
  lemma {:induction false} DotsMonotone(code: seq<bv8>, lo: nat, m: nat, hi: nat)
    ensures lo <= m <= hi <= |code| ==> Dots(code, lo, m) <= Dots(code, lo, hi)
    decreases hi
  {
    if lo <= m < hi <= |code| {
      DotsMonotone(code, lo, m, hi - 1);
    }
  }

  /** An identifier that ends before the end of the code does not run out. */
  lemma IdentEnds(code: seq<bv8>, off: nat, end: nat)
    requires off < end <= |code| && IdentOk(code, off, end)
    ensures !IdentRunsOut(code, off)
  {
    assert !IsIdentCont(code[end]);
  }

  /** A number that ends before the end of the code does not run out. */
  lemma NumEnds(code: seq<bv8>, off: nat, end: nat)
    requires off < end <= |code| && NumOk(code, off, end)
    ensures !NumRunsOut(code, off)
  {
    DotsMonotone(code, off, end + 1, |code|);
  }

  /** The type of the token the lexer reads at off: decided by the cascade, then by the first byte. */
  ghost function TypeAt(code: seq<bv8>, off: nat): Option<TokenType>
    requires off < |code|
  {
    if MatchFixed(code[off..]).Some? then MatchFixed(code[off..])
    else if code[off] == QUOTE then Some(String)
    else if IsIdentStart(code[off]) then Some(Ident)
    else if IsDigit(code[off]) then Some(Num)
    else None
  }

  /** A token's type is the one its first bytes decide. */
  lemma TokenTypeAt(code: seq<bv8>, sp: Span, t: TokenType)
    requires TokenOk(code, sp, t)
    ensures TypeAt(code, sp.offset) == Some(t)
  {
    var off, e := sp.offset, End(sp);
    MatchFixedNone(code[off..]);
    if t.String? {
      assert NoFixed(code[off..]) && StringOk(code, off, e);
    } else if t.Ident? {
      assert NoFixed(code[off..]) && IdentOk(code, off, e);
    } else if t.Num? {
      assert NoFixed(code[off..]) && NumOk(code, off, e);
    } else {
      assert MatchFixed(code[off..]) == Some(t);
    }
  }

  /** Two tokens of one type read at one offset have one length. */
  lemma TokenLenUnique(code: seq<bv8>, sp1: Span, sp2: Span, t: TokenType)
    requires TokenOk(code, sp1, t) && TokenOk(code, sp2, t) && sp1.offset == sp2.offset
    ensures sp1.len == sp2.len
  {
    var off, e1, e2 := sp1.offset, End(sp1), End(sp2);
    StrClosedBlocks(code, off + 1, e1, e2);
    StrClosedBlocks(code, off + 1, e2, e1);
    DotsMonotone(code, off, e1 + 1, e2);
    DotsMonotone(code, off, e2 + 1, e1);
  }

  /** Where a token can be read, reading it does not panic. */
  lemma TokenExcludesPanic(code: seq<bv8>, sp: Span, t: TokenType)
    requires TokenOk(code, sp, t)
    ensures TokenPanic(code, sp.offset) == None
  {
    var off, e := sp.offset, End(sp);
    if t.String? {
      assert NoFixed(code[off..]) && StringOk(code, off, e);
      StrClosedBlocks(code, off + 1, e, |code|);
      assert !StringOpen(code, off);
    } else if t.Ident? {
      assert NoFixed(code[off..]) && IdentOk(code, off, e);
      IdentEnds(code, off, e);
    } else if t.Num? {
      assert NoFixed(code[off..]) && NumOk(code, off, e);
      NumEnds(code, off, e);
    } else {
      assert MatchFixed(code[off..]) == Some(t);
      MatchFixedNone(code[off..]);
    }
  }

  /** Token k of a lexing, with the gap before it. */
  lemma LexedToken(code: seq<bv8>, spans: seq<Span>, types: seq<TokenType>, k: nat)
    ensures Lexed(code, spans, types) && k < |spans| ==>
      && GapStart(spans, k) <= spans[k].offset < |code|
      && GapBefore(code, GapStart(spans, k), spans[k].offset)
      && TokenOk(code, spans[k], types[k])
  {
    if Lexed(code, spans, types) && k < |spans| {
      assert InPlace(code, spans, k) && LexedAt(code, spans, types, k);
    }
  }

  /** When a token follows the first k, skipping from the end of token k - 1 cannot reach the end of the code. */
  lemma TokenAfterBlocksEnd(code: seq<bv8>, spans: seq<Span>, types: seq<TokenType>, k: nat)
    ensures Lexed(code, spans, types) && k < |spans| ==>
      GapStart(spans, k) <= |code| && GapScan(code, GapStart(spans, k), |code|).None?
  {
    LexedToken(code, spans, types, k);
    if Lexed(code, spans, types) && k < |spans| {
      GapBeforeBlocks(code, GapStart(spans, k), spans[k].offset, |code|);
    }
  }

  /** Token i of two token lists has the same place and type. */
  predicate SameToken(spans1: seq<Span>, types1: seq<TokenType>, spans2: seq<Span>, types2: seq<TokenType>, i: nat)
    requires i < |spans1| && i < |types1| && i < |spans2| && i < |types2|
  {
    spans1[i].offset == spans2[i].offset && spans1[i].len == spans2[i].len && types1[i] == types2[i]
  }

  /** Two lexings of the same code agree token for token on their common length. */
  lemma {:induction false} LexedAgree(code: seq<bv8>, spans1: seq<Span>, types1: seq<TokenType>,
                                      spans2: seq<Span>, types2: seq<TokenType>, k: nat)
    ensures && Lexed(code, spans1, types1) && Lexed(code, spans2, types2)
            && k <= |spans1| && k <= |spans2|
            ==>
            && GapStart(spans1, k) == GapStart(spans2, k)
            && forall i :: 0 <= i < k ==> SameToken(spans1, types1, spans2, types2, i)
    decreases k
  {
    if && Lexed(code, spans1, types1) && Lexed(code, spans2, types2)
       && 0 < k <= |spans1| && k <= |spans2| {
      LexedAgree(code, spans1, types1, spans2, types2, k - 1);
      NextTokenAgrees(code, spans1, types1, spans2, types2, k - 1);
    }
  }

  /** After the same first k tokens, two lexings read the same token k. */
  lemma NextTokenAgrees(code: seq<bv8>, spans1: seq<Span>, types1: seq<TokenType>,
                        spans2: seq<Span>, types2: seq<TokenType>, k: nat)
    requires Lexed(code, spans1, types1) && Lexed(code, spans2, types2)
    requires k < |spans1| && k < |spans2| && GapStart(spans1, k) == GapStart(spans2, k)
    ensures SameToken(spans1, types1, spans2, types2, k)
    ensures GapStart(spans1, k + 1) == GapStart(spans2, k + 1)
  {
    LexedToken(code, spans1, types1, k);
    LexedToken(code, spans2, types2, k);
    var sp1, sp2 := spans1[k], spans2[k];
    GapBeforeUnique(code, GapStart(spans1, k), sp1.offset, sp2.offset);
    TokenTypeAt(code, sp1, types1[k]);
    TokenTypeAt(code, sp2, types2[k]);
    TokenLenUnique(code, sp1, sp2, types1[k]);
  }

  /** The code has one lexing at most: two full lexings are the same tokens. */
  lemma LexingIsUnique(code: seq<bv8>, spans1: seq<Span>, types1: seq<TokenType>,
                       spans2: seq<Span>, types2: seq<TokenType>)
    requires FullyLexed(code, spans1, types1) && FullyLexed(code, spans2, types2)
    ensures |spans1| == |spans2|
    ensures forall i :: 0 <= i < |spans1| ==> SameToken(spans1, types1, spans2, types2, i)
  {
    TokenAfterBlocksEnd(code, spans1, types1, |spans2|);
    TokenAfterBlocksEnd(code, spans2, types2, |spans1|);
    var k := if |spans1| <= |spans2| then |spans1| else |spans2|;
    LexedAgree(code, spans1, types1, spans2, types2, k);
  }

  /** Where the code has a full lexing, the lexer cannot panic after any prefix of it. */
  lemma NotStuckAt(code: seq<bv8>, spans: seq<Span>, types: seq<TokenType>,
                   spans2: seq<Span>, types2: seq<TokenType>, pos: nat, p: Panic)
    requires FullyLexed(code, spans, types)
    ensures !StuckAt(code, spans2, types2, pos, p)
  {
    if |spans2| <= |spans| {
      var k := |spans2|;
      LexedAgree(code, spans, types, spans2, types2, k);
      var gs := GapStart(spans, k);
      if k < |spans| {
        LexedToken(code, spans, types, k);
        GapBeforeBlocks(code, gs, spans[k].offset, |code|);
        GapBeforeUnique(code, gs, spans[k].offset, pos);
        TokenExcludesPanic(code, spans[k], types[k]);
      } else {
        GapBeforeBlocks(code, gs, pos, |code|);
      }
    } else {
      LexedAgree(code, spans, types, spans2, types2, |spans|);
      TokenAfterBlocksEnd(code, spans2, types2, |spans|);
    }
  }

  /** Where the code has a full lexing, the lexer does not panic. */
  lemma LexingRulesOutPanic(code: seq<bv8>, spans: seq<Span>, types: seq<TokenType>, p: Panic)
    ensures FullyLexed(code, spans, types) ==> !Stuck(code, p)
  {
    if FullyLexed(code, spans, types) {
      forall spans2, types2, pos
        ensures !StuckAt(code, spans2, types2, pos, p)
      {
        NotStuckAt(code, spans, types, spans2, types2, pos, p);
      }
    }
  }

  /** A panic means the code has no full lexing. */
  lemma StuckMeansNoLexing(code: seq<bv8>, p: Panic)
    requires Stuck(code, p)
    ensures forall spans, types :: !FullyLexed(code, spans, types)
  {
    forall spans, types
      ensures !FullyLexed(code, spans, types)
    {
      LexingRulesOutPanic(code, spans, types, p);
    }
  }

  /** `;` alone is one token and the lexer does not panic on it. */
  lemma SemicolonIsLexed(code: seq<bv8>, p: Panic)
    requires |code| == 1 && code[0] == 0x3B
    ensures !Stuck(code, p)
  {
    var spans, types := [Span(0, 1, 1, 0)], [Semi];
    SemicolonFullyLexed(code, spans, types);
    LexingRulesOutPanic(code, spans, types, p);
  }

  /** The lexing of `;`: one Semi token, nothing skipped before or after it. */
  lemma SemicolonFullyLexed(code: seq<bv8>, spans: seq<Span>, types: seq<TokenType>)
    requires |code| == 1 && code[0] == 0x3B
    requires spans == [Span(0, 1, 1, 0)] && types == [Semi]
    ensures FullyLexed(code, spans, types)
  {
    SemicolonToken(code);
    assert GapStep(code, 0, Top).None?;
    assert GapBefore(code, 0, 0);
    assert GapAtEnd(code, 1);
    assert InPlace(code, spans, 0);
    assert LexedAt(code, spans, types, 0);
  }

  /** The byte `;` is a Semi token. */
  lemma SemicolonToken(code: seq<bv8>)
    requires |code| == 1 && code[0] == 0x3B
    ensures TokenOk(code, Span(0, 1, 1, 0), Semi)
  {
    assert code[0..] == code;
    SemiExample(code);
    assert |Text(Semi)| == 1;
    assert ClassOk(code, 0, 1, Semi);
  }

  /** A quote inside a `//` comment starts no string: the comment is skipped to its newline. */
  lemma QuoteInCommentIsSkipped(p: Panic)
    ensures !Stuck([0x2F, 0x2F, 0x22, 0x0A], p)
  {
    var code: seq<bv8> := [0x2F, 0x2F, 0x22, 0x0A];
    assert IsCommentStart(code, 0) && !IsWs(code[0]) && code[3] == NL;
    assert GapStep(code, 0, Top) == Some(Slash) && !GapRecords(code, 0, Top);
    assert GapScan(code, 0, 0) == Some(Scan(Top, []));
    var sc1 := GapScan(code, 0, 1);
    assert sc1.Some? && sc1.value.state == Slash;
    assert sc1.value.breaks == [];
    assert GapScan(code, 0, 1) == Some(Scan(Slash, []));
    assert GapScan(code, 0, 2) == Some(Scan(Comment, []));
    assert GapScan(code, 0, 3) == Some(Scan(Comment, []));
    assert GapRecords(code, 3, Comment);
    assert GapScan(code, 0, 4) == Some(Scan(Top, [] + [3]));
    assert FullyLexed(code, [], []);
    LexingRulesOutPanic(code, [], [], p);
  }
}
