/** `split_tokens` (sd_tag_organizer/utils.py, and its textually identical
    copy in categorize-tokens.py): split a prompt at the commas that are not
    inside parentheses or square brackets, stripping each piece.

    The scanner is modelled as the left fold of the source's loop body over
    the characters of the prompt. Its specification is `Buffers`, which
    decides each split from the character counts of the prefix before the
    comma rather than from running counters. */
module Tokenizer {
  import opened Text
  import opened Seqs

  /** The loop variables of `split_tokens`: the stripped tokens emitted so
      far, the current (unstripped) buffer and the two depth counters. The
      counters are plain integers and go negative on unbalanced closers. */
  datatype ScanState = ScanState(tokens: seq<string>, current: string, parenDepth: int, bracketDepth: int)

  const Start := ScanState([], "", 0, 0)

  /** One iteration of the `for c in prompt` loop. */
  function Step(st: ScanState, c: char): ScanState
  {
    var paren := if c == '(' then st.parenDepth + 1 else if c == ')' then st.parenDepth - 1 else st.parenDepth;
    var bracket := if c == '[' then st.bracketDepth + 1 else if c == ']' then st.bracketDepth - 1 else st.bracketDepth;
    if paren == 0 && bracket == 0 && c == ',' then
      ScanState(st.tokens + [Strip(st.current)], "", paren, bracket)
    else
      ScanState(st.tokens, st.current + [c], paren, bracket)
  }

  /** The loop state after consuming `s` from state `st`. */
  function ScanFrom(st: ScanState, s: string): ScanState
    decreases |s|
  {
    if |s| == 0 then st else Step(ScanFrom(st, s[..|s| - 1]), s[|s| - 1])
  }

  function StripAll(xs: seq<string>): (r: seq<string>)
    ensures |r| == |xs|
    ensures forall i :: 0 <= i < |xs| ==> r[i] == Strip(xs[i])
  {
    seq(|xs|, i requires 0 <= i < |xs| => Strip(xs[i]))
  }

  /** `split_tokens(prompt)`: the tokens emitted by the loop, then the
      stripped final buffer, which is appended unconditionally. */
  function SplitTokens(s: string): (r: seq<string>)
    ensures |r| >= 1
  {
    var st := ScanFrom(Start, s);
    st.tokens + [Strip(st.current)]
  }

  /** `split_tokens` strips each buffer of the specification, so it returns
      one token more than there are separating commas. */
  lemma SplitTokensMatchesBuffers(s: string)
    ensures SplitTokens(s) == StripAll(Buffers(s))
    ensures |SplitTokens(s)| == 1 + CountSplits(s)
  {
    ScanMatchesBuffers(s);
    BuffersCount(s);
    var b := Buffers(s);
    assert b[..|b| - 1] + [b[|b| - 1]] == b;
    StripAllAppend(b[..|b| - 1], b[|b| - 1]);
  }

  /** No token starts or ends with whitespace. */
  lemma SplitTokensStripped(s: string)
    ensures forall i :: 0 <= i < |SplitTokens(s)| ==> IsStripped(SplitTokens(s)[i])
  {
    var r := SplitTokens(s);
    SplitTokensMatchesBuffers(s);
    forall i | 0 <= i < |r|
      ensures IsStripped(r[i])
    {
      assert r[i] == Strip(Buffers(s)[i]);
    }
  }

  // ----- Specification: splitting decided from character counts -----

  /** Number of occurrences of `c` in `s`. */
  function Occurrences(s: string, c: char): nat
    decreases |s|
  {
    if |s| == 0 then 0
    else Occurrences(s[..|s| - 1], c) + (if s[|s| - 1] == c then 1 else 0)
  }

  /** Net parenthesis depth after `s`: opening minus closing characters. */
  function ParenDepth(s: string): int {
    Occurrences(s, '(') - Occurrences(s, ')')
  }

  function BracketDepth(s: string): int {
    Occurrences(s, '[') - Occurrences(s, ']')
  }

  /** The comma at position `i` separates tokens: both net depths of the
      prefix before it are exactly zero. */
  predicate SplitsAt(s: string, i: nat)
    requires i < |s|
  {
    s[i] == ',' && ParenDepth(s[..i]) == 0 && BracketDepth(s[..i]) == 0
  }

  /** Number of separating commas in `s`. */
  function CountSplits(s: string): nat
    decreases |s|
  {
    if |s| == 0 then 0
    else CountSplits(s[..|s| - 1]) + (if SplitsAt(s, |s| - 1) then 1 else 0)
  }

  /** The unstripped pieces of `s` between separating commas. */
  function Buffers(s: string): (r: seq<string>)
    ensures |r| >= 1
    decreases |s|
  {
    if |s| == 0 then [""]
    else
      var r := Buffers(s[..|s| - 1]);
      if SplitsAt(s, |s| - 1) then r + [""]
      else r[..|r| - 1] + [r[|r| - 1] + [s[|s| - 1]]]
  }

  lemma StripAllAppend(xs: seq<string>, x: string)
    ensures StripAll(xs + [x]) == StripAll(xs) + [Strip(x)]
  {
  }

  /** The scanner's counters equal the net depths of what it has read. */
  lemma {:induction false} ScanDepths(s: string)
    ensures ScanFrom(Start, s).parenDepth == ParenDepth(s)
    ensures ScanFrom(Start, s).bracketDepth == BracketDepth(s)
    decreases |s|
  {
    if |s| > 0 {
      var init, c := s[..|s| - 1], s[|s| - 1];
      ScanDepths(init);
    }
  }

  /** The scanner's emitted tokens are the stripped buffers but the last,
      and its current buffer is the last buffer. */
  lemma {:induction false} ScanMatchesBuffers(s: string)
    ensures var st, b := ScanFrom(Start, s), Buffers(s);
      && st.tokens == StripAll(b[..|b| - 1])
      && st.current == b[|b| - 1]
    decreases |s|
  {
    if |s| > 0 {
      var init, c := s[..|s| - 1], s[|s| - 1];
      ScanMatchesBuffers(init);
      ScanDepths(init);
      assert s[..|s| - 1] == init;
      var b := Buffers(init);
      var st := ScanFrom(Start, init);
      assert ScanFrom(Start, s) == Step(st, c);
      var split := c == ',' && ParenDepth(init) == 0 && BracketDepth(init) == 0;
      assert SplitsAt(s, |s| - 1) == split;
      if split {
        assert Buffers(s) == b + [""];
        assert Step(st, c).tokens == st.tokens + [Strip(st.current)];
        assert b[..|b| - 1] + [b[|b| - 1]] == b;
        StripAllAppend(b[..|b| - 1], b[|b| - 1]);
        assert (b + [""])[..|b|] == b;
      } else {
        assert Buffers(s) == b[..|b| - 1] + [b[|b| - 1] + [c]];
        assert Step(st, c).tokens == st.tokens;
        assert Step(st, c).current == st.current + [c];
        assert Buffers(s)[..|Buffers(s)| - 1] == b[..|b| - 1];
      }
    }
  }

  /** One token more than there are separating commas. */
  lemma {:induction false} BuffersCount(s: string)
    ensures |Buffers(s)| == 1 + CountSplits(s)
    decreases |s|
  {
    if |s| > 0 {
      BuffersCount(s[..|s| - 1]);
    }
  }

  /** Round trip: every character that is not a separating comma goes into
      the current buffer, so joining the buffers with "," gives back the
      prompt exactly. */
  lemma {:induction false} BuffersJoin(s: string)
    ensures Join(Buffers(s), ",") == s
    decreases |s|
  {
    if |s| > 0 {
      var init, c := s[..|s| - 1], s[|s| - 1];
      BuffersJoin(init);
      var r := Buffers(init);
      assert s == init + [c];
      if SplitsAt(s, |s| - 1) {
        JoinNewPiece(r, ",");
      } else {
        JoinExtendLast(r, ",", c);
      }
    }
  }

  lemma JoinNewPiece(r: seq<string>, sep: string)
    requires |r| >= 1
    ensures Join(r + [""], sep) == Join(r, sep) + sep
  {
    assert (r + [""])[..|r|] == r;
  }

  lemma JoinExtendLast(r: seq<string>, sep: string, c: char)
    requires |r| >= 1
    ensures Join(r[..|r| - 1] + [r[|r| - 1] + [c]], sep) == Join(r, sep) + [c]
  {
    var r' := r[..|r| - 1] + [r[|r| - 1] + [c]];
    if |r| > 1 {
      assert r'[..|r'| - 1] == r[..|r| - 1];
    }
  }

  /** Every token of `split_tokens` is the strip of the corresponding buffer,
      and the buffers joined with "," are the prompt. */
  lemma SplitTokensRoundTrip(s: string)
    ensures |SplitTokens(s)| == |Buffers(s)|
    ensures forall i :: 0 <= i < |SplitTokens(s)| ==> SplitTokens(s)[i] == Strip(Buffers(s)[i])
    ensures Join(Buffers(s), ",") == s
  {
    SplitTokensMatchesBuffers(s);
    BuffersJoin(s);
  }

  // ----- Prompts without grouping characters -----

  predicate NoGrouping(s: string) {
    '(' !in s && ')' !in s && '[' !in s && ']' !in s
  }

  /** Python's `s.split(sep)` for a one-character separator. */
  function SplitOn(s: string, sep: char): (r: seq<string>)
    ensures |r| >= 1
    decreases |s|
  {
    if |s| == 0 then [""]
    else
      var r := SplitOn(s[..|s| - 1], sep);
      if s[|s| - 1] == sep then r + [""]
      else r[..|r| - 1] + [r[|r| - 1] + [s[|s| - 1]]]
  }

  lemma {:induction false} OccurrencesAbsent(s: string, c: char)
    requires c !in s
    ensures Occurrences(s, c) == 0
    decreases |s|
  {
    if |s| > 0 {
      assert s[..|s| - 1] <= s;
      OccurrencesAbsent(s[..|s| - 1], c);
    }
  }

  lemma {:induction false} BuffersWithoutGrouping(s: string)
    requires NoGrouping(s)
    ensures Buffers(s) == SplitOn(s, ',')
    decreases |s|
  {
    if |s| > 0 {
      var init := s[..|s| - 1];
      assert init <= s;
      assert NoGrouping(init);
      BuffersWithoutGrouping(init);
      OccurrencesAbsent(init, '(');
      OccurrencesAbsent(init, ')');
      OccurrencesAbsent(init, '[');
      OccurrencesAbsent(init, ']');
      assert SplitsAt(s, |s| - 1) == (s[|s| - 1] == ',');
    }
  }

  /** Without parentheses or brackets, `split_tokens` is a plain split on
      "," followed by stripping each piece. */
  lemma SplitTokensWithoutGrouping(s: string)
    requires NoGrouping(s)
    ensures SplitTokens(s) == StripAll(SplitOn(s, ','))
  {
    SplitTokensMatchesBuffers(s);
    BuffersWithoutGrouping(s);
  }

  // ----- Concrete prompts -----

  lemma {:induction false} ScanFromAppend(st: ScanState, u: string, v: string)
    ensures ScanFrom(st, u + v) == ScanFrom(ScanFrom(st, u), v)
    decreases |v|
  {
    if |v| == 0 {
      assert u + v == u;
    } else {
      assert (u + v)[..|u + v| - 1] == u + v[..|v| - 1];
      ScanFromAppend(st, u, v[..|v| - 1]);
    }
  }

  lemma ScanSnoc(st: ScanState, u: string, c: char)
    ensures ScanFrom(st, u + [c]) == Step(ScanFrom(st, u), c)
  {
    assert (u + [c])[..|u|] == u;
  }

  /** A stretch without commas only extends the current buffer. */
  lemma {:induction false} ScanWithoutComma(st: ScanState, w: string)
    requires ',' !in w
    ensures ScanFrom(st, w).tokens == st.tokens
    ensures ScanFrom(st, w).current == st.current + w
    decreases |w|
  {
    if |w| > 0 {
      assert w == w[..|w| - 1] + [w[|w| - 1]];
      ScanWithoutComma(st, w[..|w| - 1]);
    }
  }

  /** A stretch without commas or grouping characters leaves the counters alone. */
  lemma {:induction false} ScanPlain(st: ScanState, w: string)
    requires ',' !in w && NoGrouping(w)
    ensures ScanFrom(st, w) == ScanState(st.tokens, st.current + w, st.parenDepth, st.bracketDepth)
    decreases |w|
  {
    if |w| > 0 {
      assert w == w[..|w| - 1] + [w[|w| - 1]];
      ScanPlain(st, w[..|w| - 1]);
    }
  }

  /** At depth (0, 0), a comma after a plain stretch emits the stripped buffer. */
  lemma SeparatorAfterPlain(st: ScanState, w: string)
    requires st.parenDepth == 0 && st.bracketDepth == 0
    requires ',' !in w && NoGrouping(w)
    ensures ScanFrom(st, w + [',']) == ScanState(st.tokens + [Strip(st.current + w)], "", 0, 0)
  {
    ScanPlain(st, w);
    ScanSnoc(st, w, ',');
  }

  /** A plain first token, a separator, then a comma-free remainder after
      one space: two tokens. */
  lemma {:induction false} TwoTokens(head: string, body: string)
    requires ',' !in head && NoGrouping(head) && IsStripped(head)
    requires ',' !in body && IsStripped(body)
    ensures SplitTokens(head + ", " + body) == [head, body]
  {
    var rest := [' '] + body;
    assert head + ", " + body == (head + [',']) + rest;
    SeparatorAfterPlain(Start, head);
    var st := ScanFrom(Start, head + [',']);
    assert "" + head == head;
    StripUnchanged(head);
    assert st == ScanState([head], "", 0, 0);
    StripLeadingSpace(' ', body);
    StripUnchanged(body);
    assert ',' !in rest;
    ScanWithoutComma(st, rest);
    ScanFromAppend(Start, head + [','], rest);
    assert "" + rest == rest;
  }

  /** A separator at the very end leaves an empty last token. */
  lemma {:induction false} TrailingSeparator(head: string)
    requires ',' !in head && NoGrouping(head) && IsStripped(head)
    ensures SplitTokens(head + ",") == [head, ""]
  {
    SeparatorAfterPlain(Start, head);
    assert "" + head == head;
    assert head + "," == head + [','];
    StripUnchanged(head);
    StripUnchanged("");
  }

  lemma SplitEmpty()
    ensures SplitTokens("") == [""]
  {
    StripUnchanged("");
  }

  /** A trailing separator yields a trailing empty token. */
  lemma SplitTrailingComma()
    ensures SplitTokens("a,") == ["a", ""]
  {
    assert "a"[0] == 'a';
    TrailingSeparator("a");
    assert "a" + "," == "a,";
  }

  /** The example of the source's docstring: the nested groups stay in the
      second token. */
  lemma SplitDocstringExample()
    ensures SplitTokens("Zootopia" + ", " + "solo (((nick wilde))) with ((neck tuft))")
         == ["Zootopia", "solo (((nick wilde))) with ((neck tuft))"]
  {
    var head, body := "Zootopia", "solo (((nick wilde))) with ((neck tuft))";
    assert ',' !in head && NoGrouping(head) && IsStripped(head) by {
      assert head[0] == 'Z' && head[7] == 'a';
    }
    assert ',' !in body && IsStripped(body) by {
      assert body[0] == 's' && body[39] == ')';
    }
    TwoTokens(head, body);
  }

  /** An unbalanced closer drives the depth negative, and a comma at negative
      depth does not separate tokens: the source does not repair this. */
  lemma SplitUnbalancedExample()
    ensures SplitTokens("),") == ["),"]
  {
    assert IsStripped("),") by {
      assert "),"[0] == ')' && "),"[1] == ',';
    }
    StripUnchanged("),");
    ScanSnoc(Start, [], ')');
    ScanSnoc(Start, [')'], ',');
    assert [')'] + [','] == "),";
  }
}
