/**
 * `tokenize` of src/tokenizer.rs: a single pass over the bytes of the code,
 * with a position index in place of the shrinking `input` slice, pushing
 * onto `line_breaks`, `spans` and `types` as it goes.  Panics are Failure
 * results.  The result is specified by TokenSpec: the tokens are exactly
 * what the lexer reads, and the line breaks, lines and columns are those
 * its counters record.
 */
module Tokenizer {
  import opened Wrappers
  import opened TokenSpec

  /**
   * What holds at the top of the main loop: the tokens so far are lexed,
   * the bytes since the last token are being skipped (automaton state st),
   * and the counters agree with the breaks recorded so far.
   */
  ghost predicate Progress(code: seq<bv8>, lineBreaks: seq<nat>, spans: seq<Span>, types: seq<TokenType>,
                           pos: nat, st: GapState, line: nat, lineStart: int)
  {
    && Lexed(code, spans, types)
    && Positions(code, spans, types)
    && GapStart(spans, |spans|) <= pos <= |code|
    && GapScan(code, GapStart(spans, |spans|), pos).Some?
    && GapScan(code, GapStart(spans, |spans|), pos).value.state == st
    && lineBreaks == Breaks(code, spans, types, pos)
    && line == 1 + |lineBreaks|
    && lineStart == LineStart(code, spans, types, pos)
  }

  /** One byte of a gap read in automaton state st, recording it when the newline loop would. */
  lemma SkipByte(code: seq<bv8>, lineBreaks: seq<nat>, spans: seq<Span>, types: seq<TokenType>,
                 pos: nat, st: GapState, line: nat, lineStart: int, st': GapState)
    requires Progress(code, lineBreaks, spans, types, pos, st, line, lineStart)
    requires pos < |code| && GapStep(code, pos, st) == Some(st')
    ensures GapRecords(code, pos, st) ==>
      Progress(code, lineBreaks + [pos], spans, types, pos + 1, st', line + 1, pos + 1)
    ensures !GapRecords(code, pos, st) ==>
      Progress(code, lineBreaks, spans, types, pos + 1, st', line, lineStart)
  {
    var gs := GapStart(spans, |spans|);
    var sc := GapScan(code, gs, pos).value;
    var rec := if GapRecords(code, pos, st) then [pos] else [];
    assert GapScan(code, gs, pos + 1) == Some(Scan(st', sc.breaks + rec));
    assert GapBreaks(code, gs, pos + 1) == GapBreaks(code, gs, pos) + rec;
  }

  /** Pushing a token after the last one keeps the tokens ordered; earlier gaps are unchanged. */
  lemma OrderedPush(code: seq<bv8>, spans: seq<Span>, types: seq<TokenType>, sp: Span, t: TokenType)
    requires Ordered(code, spans, types)
    requires GapStart(spans, |spans|) <= sp.offset && 0 < sp.len && End(sp) <= |code|
    ensures Ordered(code, spans + [sp], types + [t])
    ensures forall k :: 0 <= k <= |spans| ==> GapStart(spans + [sp], k) == GapStart(spans, k)
  {
    var spans' := spans + [sp];
    forall k | 0 <= k <= |spans|
      ensures GapStart(spans', k) == GapStart(spans, k)
    {
      if k > 0 {
        assert spans'[k - 1] == spans[k - 1];
      }
    }
    forall k | 0 <= k < |spans'|
      ensures InPlace(code, spans', k)
    {
      if k < |spans| {
        assert InPlace(code, spans, k);
        assert spans'[k] == spans[k] && GapStart(spans', k) == GapStart(spans, k);
      } else {
        assert spans'[k] == sp && GapStart(spans', k) == GapStart(spans, k);
      }
    }
  }

  /** Pushing a token keeps the tokens lexed. */
  lemma LexedPush(code: seq<bv8>, spans: seq<Span>, types: seq<TokenType>, sp: Span, t: TokenType)
    requires Lexed(code, spans, types)
    requires GapStart(spans, |spans|) <= sp.offset < |code|
    requires GapBefore(code, GapStart(spans, |spans|), sp.offset)
    requires TokenOk(code, sp, t)
    ensures Ordered(code, spans + [sp], types + [t])
    ensures Lexed(code, spans + [sp], types + [t])
  {
    var spans', types' := spans + [sp], types + [t];
    OrderedPush(code, spans, types, sp, t);
    forall k | 0 <= k < |spans'|
      ensures LexedAt(code, spans', types', k)
    {
      if k < |spans| {
        LexedEarlier(code, spans, types, sp, t, k);
      } else {
        assert spans'[k] == sp && types'[k] == t;
      }
    }
  }

  /** An earlier token stays lexed once a token is pushed. */
  lemma LexedEarlier(code: seq<bv8>, spans: seq<Span>, types: seq<TokenType>, sp: Span, t: TokenType, k: nat)
    requires Lexed(code, spans, types) && Ordered(code, spans + [sp], types + [t]) && k < |spans|
    requires GapStart(spans + [sp], k) == GapStart(spans, k)
    ensures LexedAt(code, spans + [sp], types + [t], k)
  {
    assert (spans + [sp])[k] == spans[k] && (types + [t])[k] == types[k];
    assert InPlace(code, spans, k) && LexedAt(code, spans, types, k);
  }

  /** Pushing a token leaves the breaks the earlier tokens recorded unchanged. */
  lemma {:induction false} PushKeepsEarlier(code: seq<bv8>, spans: seq<Span>, types: seq<TokenType>,
                                            sp: Span, t: TokenType, k: nat)
    requires Ordered(code, spans, types) && Ordered(code, spans + [sp], types + [t]) && k <= |spans|
    ensures BreaksTo(code, spans + [sp], types + [t], k) == BreaksTo(code, spans, types, k)
    decreases k
  {
    if k > 0 {
      PushKeepsEarlier(code, spans, types, sp, t, k - 1);
      GapBeforePush(code, spans, types, sp, t, k - 1);
    }
  }

  /** The line start after the first k tokens depends on those tokens alone. */
  lemma {:induction false} LineStartToAgree(code: seq<bv8>, spans1: seq<Span>, types1: seq<TokenType>,
                                            spans2: seq<Span>, types2: seq<TokenType>, k: nat)
    requires Ordered(code, spans1, types1) && Ordered(code, spans2, types2)
    requires k <= |spans1| && k <= |spans2|
    requires forall i :: 0 <= i < k ==> spans1[i] == spans2[i] && types1[i] == types2[i]
    ensures LineStartTo(code, spans1, types1, k) == LineStartTo(code, spans2, types2, k)
    decreases k
  {
    if k > 0 {
      LineStartToAgree(code, spans1, types1, spans2, types2, k - 1);
      assert spans1[k - 1] == spans2[k - 1] && types1[k - 1] == types2[k - 1];
      if k > 1 {
        assert spans1[k - 2] == spans2[k - 2];
      }
      assert GapStart(spans1, k - 1) == GapStart(spans2, k - 1);
    }
  }

  /** Pushing a token leaves the line start after the earlier tokens unchanged. */
  lemma PushKeepsLineStart(code: seq<bv8>, spans: seq<Span>, types: seq<TokenType>,
                           sp: Span, t: TokenType, k: nat)
    requires Ordered(code, spans, types) && Ordered(code, spans + [sp], types + [t]) && k <= |spans|
    ensures LineStartTo(code, spans + [sp], types + [t], k) == LineStartTo(code, spans, types, k)
  {
    forall i | 0 <= i < k
      ensures (spans + [sp])[i] == spans[i] && (types + [t])[i] == types[i]
    {
    }
    LineStartToAgree(code, spans + [sp], types + [t], spans, types, k);
  }

  /** Token k and the gap before it are unchanged once a later token is pushed. */
  lemma GapBeforePush(code: seq<bv8>, spans: seq<Span>, types: seq<TokenType>, sp: Span, t: TokenType, k: nat)
    requires Ordered(code, spans, types) && Ordered(code, spans + [sp], types + [t]) && k < |spans|
    ensures (spans + [sp])[k] == spans[k] && (types + [t])[k] == types[k]
    ensures GapBreaksBefore(code, spans + [sp], types + [t], k) == GapBreaksBefore(code, spans, types, k)
  {
    var spans' := spans + [sp];
    if k > 0 {
      assert spans'[k - 1] == spans[k - 1];
    }
    assert GapStart(spans', k) == GapStart(spans, k);
  }

  /** The last gap and token once a token is pushed, named for the two lemmas below. */
  lemma PushLastGap(code: seq<bv8>, spans: seq<Span>, types: seq<TokenType>, sp: Span, t: TokenType)
    requires Ordered(code, spans, types)
    requires Ordered(code, spans + [sp], types + [t])
    requires GapStart(spans, |spans|) <= sp.offset && End(sp) <= |code|
    ensures GapStart(spans + [sp], |spans|) == GapStart(spans, |spans|)
    ensures GapStart(spans + [sp], |spans| + 1) == End(sp)
    ensures (spans + [sp])[|spans|] == sp && (types + [t])[|spans|] == t
    ensures GapBreaksBefore(code, spans + [sp], types + [t], |spans|)
         == GapBreaks(code, GapStart(spans, |spans|), sp.offset)
    ensures GapBreaks(code, End(sp), End(sp)) == []
  {
    var spans' := spans + [sp];
    var n := |spans|;
    if n > 0 {
      assert spans'[n - 1] == spans[n - 1];
    }
    assert GapScan(code, End(sp), End(sp)) == Some(Scan(Top, []));
  }

  /** The breaks once a token is pushed: those before it, then the string's own. */
  lemma BreaksPush(code: seq<bv8>, spans: seq<Span>, types: seq<TokenType>, sp: Span, t: TokenType)
    requires Ordered(code, spans, types)
    requires Ordered(code, spans + [sp], types + [t])
    requires GapStart(spans, |spans|) <= sp.offset && End(sp) <= |code|
    ensures Breaks(code, spans + [sp], types + [t], End(sp))
         == Breaks(code, spans, types, sp.offset) + TokenBreaks(code, sp, t)
  {
    var spans', types' := spans + [sp], types + [t];
    var n := |spans|;
    PushKeepsEarlier(code, spans, types, sp, t, n);
    PushLastGap(code, spans, types, sp, t);
    var before := BreaksTo(code, spans, types, n);
    var gap := GapBreaks(code, GapStart(spans, n), sp.offset);
    assert BreaksTo(code, spans', types', n + 1) == before + gap + TokenBreaks(code, sp, t);
    assert Breaks(code, spans', types', End(sp)) == BreaksTo(code, spans', types', n + 1) + [];
    assert Breaks(code, spans, types, sp.offset) == before + gap;
  }

  /** The line start once a token is pushed: the string's last newline, if it has one. */
  lemma LineStartPush(code: seq<bv8>, spans: seq<Span>, types: seq<TokenType>, sp: Span, t: TokenType)
    requires Ordered(code, spans, types)
    requires Ordered(code, spans + [sp], types + [t])
    requires GapStart(spans, |spans|) <= sp.offset && End(sp) <= |code|
    ensures var tb := TokenBreaks(code, sp, t);
      LineStart(code, spans + [sp], types + [t], End(sp))
        == if |tb| > 0 then tb[|tb| - 1] else LineStart(code, spans, types, sp.offset)
  {
    var spans', types' := spans + [sp], types + [t];
    var n := |spans|;
    PushKeepsLineStart(code, spans, types, sp, t, n);
    PushLastGap(code, spans, types, sp, t);
    assert LineStart(code, spans', types', End(sp)) == LineStartTo(code, spans', types', n + 1);
  }

  /** An earlier token keeps its line and column once a token is pushed. */
  lemma PositionEarlier(code: seq<bv8>, spans: seq<Span>, types: seq<TokenType>, sp: Span, t: TokenType, k: nat)
    requires Ordered(code, spans, types) && Positions(code, spans, types)
    requires Ordered(code, spans + [sp], types + [t]) && k < |spans|
    ensures PlacedAt(code, spans + [sp], types + [t], k)
  {
    PushKeepsEarlier(code, spans, types, sp, t, k + 1);
    PushKeepsLineStart(code, spans, types, sp, t, k + 1);
    assert PlacedAt(code, spans, types, k);
    assert (spans + [sp])[k] == spans[k];
  }

  /** The pushed token's line and column are those the counters give at its end. */
  lemma PositionLast(code: seq<bv8>, spans: seq<Span>, types: seq<TokenType>, sp: Span, t: TokenType)
    requires Ordered(code, spans + [sp], types + [t])
    requires GapStart(spans + [sp], |spans| + 1) == End(sp) <= |code|
    requires sp.line == 1 + |Breaks(code, spans + [sp], types + [t], End(sp))|
    requires sp.col == sp.offset - LineStart(code, spans + [sp], types + [t], End(sp))
    ensures PlacedAt(code, spans + [sp], types + [t], |spans|)
  {
    var spans' := spans + [sp];
    assert spans'[|spans|] == sp;
    assert GapStart(spans', |spans'|) == End(sp);
    assert GapScan(code, End(sp), End(sp)) == Some(Scan(Top, []));
  }

  /** Pushing a token with the line and column the counters give keeps Positions. */
  lemma PositionsPush(code: seq<bv8>, spans: seq<Span>, types: seq<TokenType>, sp: Span, t: TokenType)
    requires Ordered(code, spans, types) && Positions(code, spans, types)
    requires Ordered(code, spans + [sp], types + [t])
    requires GapStart(spans, |spans|) <= sp.offset && End(sp) <= |code|
    requires sp.line == 1 + |Breaks(code, spans + [sp], types + [t], End(sp))|
    requires sp.col == sp.offset - LineStart(code, spans + [sp], types + [t], End(sp))
    ensures Positions(code, spans + [sp], types + [t])
  {
    var spans', types' := spans + [sp], types + [t];
    assert GapStart(spans', |spans| + 1) == End(sp);
    forall k | 0 <= k < |spans'|
      ensures PlacedAt(code, spans', types', k)
    {
      if k < |spans| {
        PositionEarlier(code, spans, types, sp, t, k);
      } else {
        PositionLast(code, spans, types, sp, t);
      }
    }
  }

  /**
   * Pushes a token read at the end of a gap, with the counters as they stand
   * after it, and re-establishes Progress after it.
   */
  lemma PushKeepsProgress(code: seq<bv8>, lineBreaks: seq<nat>, spans: seq<Span>, types: seq<TokenType>,
                          st: GapState, line: nat, lineStart: int, sp: Span, t: TokenType,
                          lineBreaks': seq<nat>, line': nat, lineStart': int)
    ensures
      && Progress(code, lineBreaks, spans, types, sp.offset, st, line, lineStart)
      && sp.offset < |code|
      && GapBefore(code, GapStart(spans, |spans|), sp.offset)
      && TokenOk(code, sp, t)
      && lineBreaks' == lineBreaks + TokenBreaks(code, sp, t)
      && line' == line + |TokenBreaks(code, sp, t)|
      && lineStart' == (if |TokenBreaks(code, sp, t)| > 0 then TokenBreaks(code, sp, t)[|TokenBreaks(code, sp, t)| - 1] else lineStart)
      && sp.line == line'
      && sp.col == sp.offset - lineStart'
      ==>
      Progress(code, lineBreaks', spans + [sp], types + [t], End(sp), Top, line', lineStart')
  {
    var tb := TokenBreaks(code, sp, t);
    if && Progress(code, lineBreaks, spans, types, sp.offset, st, line, lineStart)
       && sp.offset < |code|
       && GapBefore(code, GapStart(spans, |spans|), sp.offset)
       && TokenOk(code, sp, t)
       && lineBreaks' == lineBreaks + tb
       && line' == line + |tb|
       && lineStart' == (if |tb| > 0 then tb[|tb| - 1] else lineStart)
       && sp.line == line'
       && sp.col == sp.offset - lineStart'
    {
      LexedPush(code, spans, types, sp, t);
      BreaksPush(code, spans, types, sp, t);
      LineStartPush(code, spans, types, sp, t);
      PositionsPush(code, spans, types, sp, t);
      assert GapScan(code, End(sp), End(sp)) == Some(Scan(Top, []));
    }
  }

  /**
   * Pushes a token without line breaks read at the end of a gap, at the
   * counters' line and column, and re-establishes Progress after it.
   */
  lemma FlatPush(code: seq<bv8>, lineBreaks: seq<nat>, spans: seq<Span>, types: seq<TokenType>,
                 st: GapState, line: nat, lineStart: int, sp: Span, t: TokenType)
    ensures
      && Progress(code, lineBreaks, spans, types, sp.offset, st, line, lineStart)
      && sp.offset < |code|
      && GapBefore(code, GapStart(spans, |spans|), sp.offset)
      && TokenOk(code, sp, t)
      && TokenBreaks(code, sp, t) == []
      && sp.line == line
      && sp.col == sp.offset - lineStart
      ==>
      Progress(code, lineBreaks, spans + [sp], types + [t], End(sp), Top, line, lineStart)
  {
    assert lineBreaks + [] == lineBreaks;
    PushKeepsProgress(code, lineBreaks, spans, types, st, line, lineStart, sp, t, lineBreaks, line, lineStart);
  }

  /**
   * A keyword or operator the cascade finds where the gap ends is a token
   * without line breaks, pushed at the counters' line and column.
   */
  lemma FixedPush(code: seq<bv8>, lineBreaks: seq<nat>, spans: seq<Span>, types: seq<TokenType>,
                  st: GapState, line: nat, lineStart: int, pos: nat, t: TokenType, len: nat)
    ensures
      && Progress(code, lineBreaks, spans, types, pos, st, line, lineStart)
      && pos < |code|
      && GapBefore(code, GapStart(spans, |spans|), pos)
      && MatchFixed(code[pos..]) == Some(t)
      && len == |Text(t)|
      ==>
      Progress(code, lineBreaks, spans + [Span(pos, len, line, pos - lineStart)], types + [t],
               pos + len, Top, line, lineStart)
  {
    if pos < |code| && MatchFixed(code[pos..]) == Some(t) && len == |Text(t)| {
      var sp := Span(pos, len, line, pos - lineStart);
      assert (TokenOk(code, sp, t) && TokenBreaks(code, sp, t) == []) == true;
      FlatPush(code, lineBreaks, spans, types, st, line, lineStart, sp, t);
    }
  }

  /** A string read by the string loop is a token, pushed with the counters the loop leaves. */
  lemma StringPush(code: seq<bv8>, lineBreaks: seq<nat>, spans: seq<Span>, types: seq<TokenType>,
                   st: GapState, line: nat, lineStart: int, pos: nat, end: nat, strBreaks: seq<nat>,
                   lineBreaks': seq<nat>, line': nat, lineStart': int)
    ensures
      && Progress(code, lineBreaks, spans, types, pos, st, line, lineStart)
      && pos < end <= |code|
      && GapBefore(code, GapStart(spans, |spans|), pos)
      && NoFixed(code[pos..]) && code[pos] == QUOTE
      && StrScan(code, pos + 1, end) == Some(Scan(Closed, strBreaks))
      && lineBreaks' == lineBreaks + strBreaks
      && line' == line + |strBreaks|
      && lineStart' == (if |strBreaks| > 0 then strBreaks[|strBreaks| - 1] else lineStart)
      ==>
      Progress(code, lineBreaks', spans + [Span(pos, end - pos, line', pos - lineStart')], types + [String],
               end, Top, line', lineStart')
  {
    if && Progress(code, lineBreaks, spans, types, pos, st, line, lineStart)
       && pos < end <= |code|
       && GapBefore(code, GapStart(spans, |spans|), pos)
       && NoFixed(code[pos..]) && code[pos] == QUOTE
       && StrScan(code, pos + 1, end) == Some(Scan(Closed, strBreaks))
       && lineBreaks' == lineBreaks + strBreaks
       && line' == line + |strBreaks|
       && lineStart' == (if |strBreaks| > 0 then strBreaks[|strBreaks| - 1] else lineStart)
    {
      var sp := Span(pos, end - pos, line', pos - lineStart');
      assert TokenOk(code, sp, String);
      assert TokenBreaks(code, sp, String) == strBreaks;
      PushKeepsProgress(code, lineBreaks, spans, types, st, line, lineStart, sp, String, lineBreaks', line', lineStart');
    }
  }

  /**
   * An identifier the identifier loop reads where the gap ends is a token
   * without line breaks, pushed at the counters' line and column.
   */
  lemma IdentPush(code: seq<bv8>, lineBreaks: seq<nat>, spans: seq<Span>, types: seq<TokenType>,
                  st: GapState, line: nat, lineStart: int, pos: nat, end: nat)
    ensures
      && Progress(code, lineBreaks, spans, types, pos, st, line, lineStart)
      && pos < end <= |code|
      && GapBefore(code, GapStart(spans, |spans|), pos)
      && NoFixed(code[pos..]) && IdentOk(code, pos, end)
      ==>
      Progress(code, lineBreaks, spans + [Span(pos, end - pos, line, pos - lineStart)], types + [Ident],
               end, Top, line, lineStart)
  {
    if pos < end <= |code| && NoFixed(code[pos..]) && IdentOk(code, pos, end) {
      var sp := Span(pos, end - pos, line, pos - lineStart);
      assert (TokenOk(code, sp, Ident) && TokenBreaks(code, sp, Ident) == []) == true;
      FlatPush(code, lineBreaks, spans, types, st, line, lineStart, sp, Ident);
    }
  }

  /**
   * A number the number loop reads where the gap ends is a token
   * without line breaks, pushed at the counters' line and column.
   */
  lemma NumPush(code: seq<bv8>, lineBreaks: seq<nat>, spans: seq<Span>, types: seq<TokenType>,
                st: GapState, line: nat, lineStart: int, pos: nat, end: nat)
    ensures
      && Progress(code, lineBreaks, spans, types, pos, st, line, lineStart)
      && pos < end <= |code|
      && GapBefore(code, GapStart(spans, |spans|), pos)
      && NoFixed(code[pos..]) && NumOk(code, pos, end)
      ==>
      Progress(code, lineBreaks, spans + [Span(pos, end - pos, line, pos - lineStart)], types + [Num],
               end, Top, line, lineStart)
  {
    if pos < end <= |code| && NoFixed(code[pos..]) && NumOk(code, pos, end) {
      var sp := Span(pos, end - pos, line, pos - lineStart);
      assert (TokenOk(code, sp, Num) && TokenBreaks(code, sp, Num) == []) == true;
      FlatPush(code, lineBreaks, spans, types, st, line, lineStart, sp, Num);
    }
  }

  /** One more byte read inside a string. */
  lemma StrScanStep(code: seq<bv8>, lo: nat, hi: nat, sc: Scan<StrState>, st': StrState)
    requires lo <= hi < |code| && StrScan(code, lo, hi) == Some(sc)
    requires StrStep(code, hi, sc.state) == Some(st')
    ensures StrScan(code, lo, hi + 1)
         == Some(Scan(st', sc.breaks + if StrRecords(code, hi, sc.state) then [hi] else []))
  {
  }

  /**
   * The string loop: reads from just after the opening quote at `start` to
   * the closing quote or to the end of the code, recording each newline of
   * the body and moving `line_start` onto it.
   */
  method ScanString(code: seq<bv8>, start: nat, lineBreaks: seq<nat>, line: nat, lineStart: int)
    returns (pos: nat, isValid: bool, lineBreaks': seq<nat>, line': nat, lineStart': int, ghost strBreaks: seq<nat>)
    requires start < |code|
    ensures start < pos <= |code|
    ensures StrScan(code, start + 1, pos) == Some(Scan(if isValid then Closed else Body, strBreaks))
    ensures lineBreaks' == lineBreaks + strBreaks
    ensures line' == line + |strBreaks|
    ensures lineStart' == if |strBreaks| > 0 then strBreaks[|strBreaks| - 1] else lineStart
    ensures !isValid ==> pos == |code|
  {
    strBreaks := [];
    lineBreaks', line', lineStart' := lineBreaks, line, lineStart;
    isValid := false;
    pos := start + 1;
    while pos < |code|
      invariant start + 1 <= pos <= |code|
      invariant StrScan(code, start + 1, pos) == Some(Scan(Body, strBreaks))
      invariant lineBreaks' == lineBreaks + strBreaks
      invariant line' == line + |strBreaks|
      invariant lineStart' == if |strBreaks| > 0 then strBreaks[|strBreaks| - 1] else lineStart
      decreases |code| - pos
    {
      if IsEscapedQuote(code, pos) {
        StrScanStep(code, start + 1, pos, Scan(Body, strBreaks), Escape);
        assert strBreaks + [] == strBreaks;
        StrScanStep(code, start + 1, pos + 1, Scan(Escape, strBreaks), Body);
        pos := pos + 2;
        continue;
      }
      if code[pos] == QUOTE {
        StrScanStep(code, start + 1, pos, Scan(Body, strBreaks), Closed);
        assert strBreaks + [] == strBreaks;
        isValid := true;
        pos := pos + 1;
        break;
      }
      StrScanStep(code, start + 1, pos, Scan(Body, strBreaks), Body);
      assert strBreaks + [] == strBreaks;
      // strings support line breaks
      if code[pos] == NL {
        lineBreaks' := lineBreaks' + [pos];
        strBreaks := strBreaks + [pos];
        lineStart' := pos;
        line' := line' + 1;
      }
      pos := pos + 1;
    }
  }

  /** The identifier loop from the byte after `start`; None where it reads past the end. */
  method ScanIdent(code: seq<bv8>, start: nat) returns (r: Option<nat>)
    requires start < |code| && IsIdentStart(code[start])
    ensures r.Some? ==> start < r.value < |code| && IdentOk(code, start, r.value)
    ensures forall j :: start < j < (if r.Some? then r.value else |code|) ==> IsIdentCont(code[j])
  {
    var pos := start + 1;
    while pos < |code| && IsIdentCont(code[pos])
      invariant start < pos <= |code|
      invariant forall j :: start < j < pos ==> IsIdentCont(code[j])
      decreases |code| - pos
    {
      pos := pos + 1;
    }
    if pos == |code| {
      return None;
    }
    return Some(pos);
  }

  /**
   * The number loop from the byte after `start`: digits and at most one dot,
   * a second dot ending the number; None where it reads past the end.
   */
  method ScanNumber(code: seq<bv8>, start: nat) returns (r: Option<nat>)
    requires start < |code| && IsDigit(code[start])
    ensures r.Some? ==> start < r.value < |code| && NumOk(code, start, r.value)
    ensures r.None? ==> forall j :: start < j < |code| ==> IsDigit(code[j]) || code[j] == DOT
    ensures r.None? ==> Dots(code, start, |code|) <= 1
  {
    var hasPoint := false;
    var pos := start + 1;
    while pos < |code| && (IsDigit(code[pos]) || code[pos] == DOT)
      invariant start < pos <= |code|
      invariant forall j :: start < j < pos ==> IsDigit(code[j]) || code[j] == DOT
      invariant Dots(code, start, pos) == if hasPoint then 1 else 0
      decreases |code| - pos
    {
      if code[pos] == DOT {
        if hasPoint {
          return Some(pos);
        }
        hasPoint := true;
      }
      pos := pos + 1;
    }
    if pos == |code| {
      return None;
    }
    return Some(pos);
  }

  /** Where the gap ends, the byte is neither whitespace nor the start of a comment. */
  lemma GapEnds(code: seq<bv8>, lo: nat, hi: nat)
    requires lo <= hi < |code| && GapBefore(code, lo, hi)
    ensures !IsWs(code[hi]) && !IsCommentStart(code, hi)
  {
  }

  /**
   * The newline loop at the top of the main loop: each newline is recorded,
   * `line` counts it and `line_start` moves past it.
   */
  method SkipNewlines(code: seq<bv8>, lineBreaks: seq<nat>, spans: seq<Span>, types: seq<TokenType>,
                      pos: nat, ghost st: GapState, line: nat, lineStart: int)
    returns (lineBreaks': seq<nat>, pos': nat, line': nat, lineStart': int)
    requires Progress(code, lineBreaks, spans, types, pos, st, line, lineStart)
    requires st.Top? || (st.Comment? && pos < |code| && code[pos] == NL)
    ensures pos <= pos' <= |code|
    ensures pos' < |code| ==> code[pos'] != NL
    ensures Progress(code, lineBreaks', spans, types, pos', Top, line', lineStart')
  {
    ghost var st' := st;
    lineBreaks', pos', line', lineStart' := lineBreaks, pos, line, lineStart;
    while pos' < |code| && code[pos'] == NL
      invariant pos <= pos' <= |code|
      invariant Progress(code, lineBreaks', spans, types, pos', st', line', lineStart')
      invariant st'.Top? || (st'.Comment? && pos' < |code| && code[pos'] == NL)
      decreases |code| - pos'
    {
      SkipByte(code, lineBreaks', spans, types, pos', st', line', lineStart', Top);
      lineBreaks' := lineBreaks' + [pos'];
      pos' := pos' + 1;
      lineStart' := pos';
      line' := line' + 1;
      st' := Top;
    }
  }

  /** The whitespace loop: newlines it reads are not recorded; it reads past the end when the code ends in whitespace. */
  method SkipWhitespace(code: seq<bv8>, lineBreaks: seq<nat>, spans: seq<Span>, types: seq<TokenType>,
                        pos: nat, line: nat, lineStart: int)
    returns (pos': nat, ghost st': GapState)
    requires Progress(code, lineBreaks, spans, types, pos, Top, line, lineStart)
    requires pos < |code| && code[pos] != NL
    ensures pos <= pos' <= |code|
    ensures st'.Top? || st'.Blank?
    ensures pos' < |code| ==> !IsWs(code[pos'])
    ensures pos' == |code| ==> st'.Blank?
    ensures Progress(code, lineBreaks, spans, types, pos', st', line, lineStart)
  {
    pos', st' := pos, Top;
    while pos' < |code| && IsWs(code[pos'])
      invariant pos <= pos' <= |code|
      invariant Progress(code, lineBreaks, spans, types, pos', st', line, lineStart)
      invariant st'.Top? || st'.Blank?
      invariant st'.Top? ==> pos' < |code| && code[pos'] != NL
      decreases |code| - pos'
    {
      SkipByte(code, lineBreaks, spans, types, pos', st', line, lineStart, Blank);
      pos' := pos' + 1;
      st' := Blank;
    }
  }

  /** A `//` comment, read up to (not including) the next newline or to the end of the code. */
  method SkipComment(code: seq<bv8>, lineBreaks: seq<nat>, spans: seq<Span>, types: seq<TokenType>,
                     pos: nat, ghost st: GapState, line: nat, lineStart: int)
    returns (pos': nat)
    requires Progress(code, lineBreaks, spans, types, pos, st, line, lineStart)
    requires (st.Top? || st.Blank?) && IsCommentStart(code, pos)
    ensures pos + 2 <= pos' <= |code|
    ensures pos' < |code| ==> code[pos'] == NL
    ensures Progress(code, lineBreaks, spans, types, pos', Comment, line, lineStart)
  {
    SkipByte(code, lineBreaks, spans, types, pos, st, line, lineStart, Slash);
    SkipByte(code, lineBreaks, spans, types, pos + 1, Slash, line, lineStart, Comment);
    pos' := pos + 2;
    while pos' < |code| && code[pos'] != NL
      invariant pos + 2 <= pos' <= |code|
      invariant Progress(code, lineBreaks, spans, types, pos', Comment, line, lineStart)
      decreases |code| - pos'
    {
      SkipByte(code, lineBreaks, spans, types, pos', Comment, line, lineStart, Comment);
      pos' := pos' + 1;
    }
  }

  /**
   * One token, read where the gap ends: a keyword or operator, tried first,
   * or else a string, an identifier or a number; pushed with the line and
   * column the counters give.  Or the panic that stops the lexer there.
   */
  method LexToken(code: seq<bv8>, lineBreaks: seq<nat>, spans: seq<Span>, types: seq<TokenType>,
                  pos: nat, ghost st: GapState, line: nat, lineStart: int)
    returns (r: Option<Panic>, lineBreaks': seq<nat>, spans': seq<Span>, types': seq<TokenType>,
             pos': nat, line': nat, lineStart': int)
    requires Progress(code, lineBreaks, spans, types, pos, st, line, lineStart)
    requires pos < |code| && GapBefore(code, GapStart(spans, |spans|), pos)
    ensures r == TokenPanic(code, pos)
    ensures r.None? ==> pos < pos' && Progress(code, lineBreaks', spans', types', pos', Top, line', lineStart') == true
    ensures r.Some? ==> StuckAt(code, spans, types, pos, r.value) == true
  {
    MatchFixedNone(code[pos..]);
    var fixed := MatchFixed(code[pos..]);
    if fixed.Some? {
      // keywords, then operators, longest first
      var t := fixed.value;
      var len := |Text(t)|;
      FixedPush(code, lineBreaks, spans, types, st, line, lineStart, pos, t, len);
      r, lineBreaks', line', lineStart' := None, lineBreaks, line, lineStart;
      spans', types', pos' := spans + [Span(pos, len, line, pos - lineStart)], types + [t], pos + len;
    } else {
      r, lineBreaks', spans', types', pos', line', lineStart' :=
        LexOther(code, lineBreaks, spans, types, pos, st, line, lineStart);
    }
  }

  /** A string, an identifier or a number, where no keyword or operator starts. */
  method LexOther(code: seq<bv8>, lineBreaks: seq<nat>, spans: seq<Span>, types: seq<TokenType>,
                  pos: nat, ghost st: GapState, line: nat, lineStart: int)
    returns (r: Option<Panic>, lineBreaks': seq<nat>, spans': seq<Span>, types': seq<TokenType>,
             pos': nat, line': nat, lineStart': int)
    requires Progress(code, lineBreaks, spans, types, pos, st, line, lineStart)
    requires pos < |code| && GapBefore(code, GapStart(spans, |spans|), pos)
    requires NoFixed(code[pos..])
    ensures r == TokenPanic(code, pos)
    ensures r.None? ==> pos < pos' && Progress(code, lineBreaks', spans', types', pos', Top, line', lineStart') == true
  {
    GapEnds(code, GapStart(spans, |spans|), pos);
    if code[pos] == QUOTE {
      r, lineBreaks', spans', types', pos', line', lineStart' :=
        LexString(code, lineBreaks, spans, types, pos, st, line, lineStart);
    } else if IsIdentStart(code[pos]) {
      r, spans', types', pos' := LexIdent(code, lineBreaks, spans, types, pos, st, line, lineStart);
      lineBreaks', line', lineStart' := lineBreaks, line, lineStart;
    } else if IsDigit(code[pos]) {
      r, spans', types', pos' := LexNumber(code, lineBreaks, spans, types, pos, st, line, lineStart);
      lineBreaks', line', lineStart' := lineBreaks, line, lineStart;
    } else {
      r, lineBreaks', spans', types', pos', line', lineStart' :=
        Some(CannotParse(pos)), lineBreaks, spans, types, pos, line, lineStart;
    }
  }

  /** The string loop from the opening quote at pos; a string left open panics. */
  method LexString(code: seq<bv8>, lineBreaks: seq<nat>, spans: seq<Span>, types: seq<TokenType>,
                   pos: nat, ghost st: GapState, line: nat, lineStart: int)
    returns (r: Option<Panic>, lineBreaks': seq<nat>, spans': seq<Span>, types': seq<TokenType>,
             pos': nat, line': nat, lineStart': int)
    requires Progress(code, lineBreaks, spans, types, pos, st, line, lineStart)
    requires pos < |code| && GapBefore(code, GapStart(spans, |spans|), pos)
    requires NoFixed(code[pos..])
    requires code[pos] == QUOTE
    ensures r.Some? <==> StringOpen(code, pos)
    ensures r.Some? ==> r.value == UnfinishedString(pos)
    ensures r.None? ==> pos < pos' && Progress(code, lineBreaks', spans', types', pos', Top, line', lineStart') == true
  {
    var end, isValid;
    ghost var strBreaks;
    end, isValid, lineBreaks', line', lineStart', strBreaks := ScanString(code, pos, lineBreaks, line, lineStart);
    if !isValid {
      r, spans', types', pos' := Some(UnfinishedString(pos)), spans, types, end;
    } else {
      StrClosedBlocks(code, pos + 1, end, |code|);
      StringPush(code, lineBreaks, spans, types, st, line, lineStart, pos, end, strBreaks, lineBreaks', line', lineStart');
      r, spans', types', pos' := None, spans + [Span(pos, end - pos, line', pos - lineStart')], types + [String], end;
    }
  }

  /** The identifier loop from pos; reading past the end of the code panics. */
  method LexIdent(code: seq<bv8>, lineBreaks: seq<nat>, spans: seq<Span>, types: seq<TokenType>,
                  pos: nat, ghost st: GapState, line: nat, lineStart: int)
    returns (r: Option<Panic>, spans': seq<Span>, types': seq<TokenType>, pos': nat)
    requires Progress(code, lineBreaks, spans, types, pos, st, line, lineStart)
    requires pos < |code| && GapBefore(code, GapStart(spans, |spans|), pos)
    requires NoFixed(code[pos..]) && IsIdentStart(code[pos])
    ensures r.None? ==> pos < pos' && Progress(code, lineBreaks, spans', types', pos', Top, line, lineStart) == true
    ensures r.Some? <==> IdentRunsOut(code, pos)
    ensures r.Some? ==> r.value == IndexOutOfBounds(|code|)
  {
    var end := ScanIdent(code, pos);
    if end.None? {
      r, spans', types', pos' := Some(IndexOutOfBounds(|code|)), spans, types, |code|;
    } else {
      IdentEnds(code, pos, end.value);
      IdentPush(code, lineBreaks, spans, types, st, line, lineStart, pos, end.value);
      r, spans', types', pos' := None, spans + [Span(pos, end.value - pos, line, pos - lineStart)], types + [Ident], end.value;
    }
  }

  /** The number loop from pos; reading past the end of the code panics. */
  method LexNumber(code: seq<bv8>, lineBreaks: seq<nat>, spans: seq<Span>, types: seq<TokenType>,
                   pos: nat, ghost st: GapState, line: nat, lineStart: int)
    returns (r: Option<Panic>, spans': seq<Span>, types': seq<TokenType>, pos': nat)
    requires Progress(code, lineBreaks, spans, types, pos, st, line, lineStart)
    requires pos < |code| && GapBefore(code, GapStart(spans, |spans|), pos)
    requires NoFixed(code[pos..]) && IsDigit(code[pos])
    ensures r.None? ==> pos < pos' && Progress(code, lineBreaks, spans', types', pos', Top, line, lineStart) == true
    ensures r.Some? <==> NumRunsOut(code, pos)
    ensures r.Some? ==> r.value == IndexOutOfBounds(|code|)
  {
    var end := ScanNumber(code, pos);
    if end.None? {
      r, spans', types', pos' := Some(IndexOutOfBounds(|code|)), spans, types, |code|;
    } else {
      NumEnds(code, pos, end.value);
      NumPush(code, lineBreaks, spans, types, st, line, lineStart, pos, end.value);
      r, spans', types', pos' := None, spans + [Span(pos, end.value - pos, line, pos - lineStart)], types + [Num], end.value;
    }
  }

  method Tokenize(code: seq<bv8>) returns (r: Result<Tokens, Panic>)
    ensures r.Success? ==>
      && r.value.code == code
      && Lexed(code, r.value.spans, r.value.types)
      && GapStart(r.value.spans, |r.value.spans|) <= |code|
      && GapAtEnd(code, GapStart(r.value.spans, |r.value.spans|))
      && r.value.lineBreaks == Breaks(code, r.value.spans, r.value.types, |code|)
      && Positions(code, r.value.spans, r.value.types)
      && NewlinesIn(code, r.value.lineBreaks, 0, |code|)
    ensures r.Failure? ==> Stuck(code, r.error)
    ensures r.Failure? ==> forall spans, types :: !FullyLexed(code, spans, types)
  {
    var line: nat := 1;
    var lineStart: int := 0;
    var lineBreaks: seq<nat> := [];
    var spans: seq<Span> := [];
    var types: seq<TokenType> := [];
    var pos: nat := 0;
    ghost var st: GapState := Top;

    while pos < |code|
      invariant Progress(code, lineBreaks, spans, types, pos, st, line, lineStart)
      invariant st.Top? || (st.Comment? && pos < |code| && code[pos] == NL)
      decreases |code| - pos
    {
      lineBreaks, pos, line, lineStart := SkipNewlines(code, lineBreaks, spans, types, pos, st, line, lineStart);
      st := Top;
      if pos == |code| {
        break;
      }

      pos, st := SkipWhitespace(code, lineBreaks, spans, types, pos, line, lineStart);
      if pos == |code| {
        // the whitespace loop reads input[0] past the end
        assert StuckAt(code, spans, types, pos, IndexOutOfBounds(pos));
        StuckMeansNoLexing(code, IndexOutOfBounds(pos));
        return Failure(IndexOutOfBounds(pos));
      }

      if IsCommentStart(code, pos) {
        pos := SkipComment(code, lineBreaks, spans, types, pos, st, line, lineStart);
        st := Comment;
        if pos == |code| {
          // the comment loop reads input[0] past the end
          assert StuckAt(code, spans, types, pos, IndexOutOfBounds(pos));
          StuckMeansNoLexing(code, IndexOutOfBounds(pos));
          return Failure(IndexOutOfBounds(pos));
        }
        continue;
      }

      var panic, lineBreaks', spans', types', pos', line', lineStart' :=
        LexToken(code, lineBreaks, spans, types, pos, st, line, lineStart);
      if panic.Some? {
        StuckMeansNoLexing(code, panic.value);
        return Failure(panic.value);
      }
      lineBreaks, spans, types, pos, line, lineStart := lineBreaks', spans', types', pos', line', lineStart';
      st := Top;
    }

    BreaksAreNewlines(code, spans, types, |code|);
    return Success(Tokens(code, lineBreaks, spans, types));
  }
}
