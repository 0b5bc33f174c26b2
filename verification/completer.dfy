/** `TagCompleter` (sd_tag_organizer/completer.py, and the copy of `complete`
    in categorize-tokens.py): a pool of tokens offered as tab completions,
    from which categorized tokens are removed. The readline wiring around it
    is not modelled; `complete` is a pure function of the completer, the
    typed text and the suggestion index. */
module Completer {
  import opened Text
  import opened Seqs

  datatype Option<T> = None | Some(value: T)

  /** The completer's two attributes: the pool and the candidate list of the
      most recent `complete` call. */
  datatype TagCompleter = TagCompleter(tokens: seq<string>, matches: seq<string>)

  /** A fresh completer; `matches` holds nothing until `complete` runs. */
  function NewCompleter(tokens: seq<string>): (c: TagCompleter)
    ensures c.tokens == tokens && c.matches == []
  {
    TagCompleter(tokens, [])
  }

  /** The list comprehension `[token for token in tokens if text in token]`. */
  function MatchesOf(tokens: seq<string>, text: string): (r: seq<string>)
    ensures IsSubsequence(r, tokens)
    ensures forall i :: 0 <= i < |r| ==> Contains(r[i], text)
    decreases |tokens|
  {
    if |tokens| == 0 then []
    else
      var init, t := tokens[..|tokens| - 1], tokens[|tokens| - 1];
      var r := MatchesOf(init, text);
      assert tokens == init + [t];
      SubsequenceExtend(r, init, t);
      if Contains(t, text) then r + [t] else r
  }

  /** The filter keeps every copy of a matching token and no copy of any
      other: together with the order it keeps, this fixes the result. */
  lemma {:induction false} MatchesOfCounts(tokens: seq<string>, text: string)
    ensures forall x :: multiset(MatchesOf(tokens, text))[x]
                     == if Contains(x, text) then multiset(tokens)[x] else 0
    decreases |tokens|
  {
    if |tokens| > 0 {
      var init, t := tokens[..|tokens| - 1], tokens[|tokens| - 1];
      MatchesOfCounts(init, text);
      assert tokens == init + [t];
      assert multiset(tokens) == multiset(init) + multiset{t};
    }
  }

  /** Every token contains the empty string, so filtering by it keeps all. */
  lemma {:induction false} MatchesOfEmpty(tokens: seq<string>)
    ensures MatchesOf(tokens, "") == tokens
    decreases |tokens|
  {
    if |tokens| > 0 {
      var init, t := tokens[..|tokens| - 1], tokens[|tokens| - 1];
      MatchesOfEmpty(init);
      ContainsEmpty(t);
      assert tokens == init + [t];
    }
  }

  /** Python's `xs[i]` for an `int` index: a negative index counts from the
      end, and an index outside `-len(xs) .. len(xs) - 1` raises
      `IndexError`, which `complete` turns into `None`. */
  function Index(xs: seq<string>, i: int): (r: Option<string>)
    ensures r.Some? <==> -|xs| <= i < |xs|
    ensures 0 <= i < |xs| ==> r == Some(xs[i])
    ensures -|xs| <= i < 0 ==> r == Some(xs[|xs| + i])
  {
    if 0 <= i < |xs| then Some(xs[i])
    else if -|xs| <= i < 0 then Some(xs[|xs| + i])
    else None
  }

  /** The candidate list `complete` builds: the whole pool for blank text,
      else the pool tokens containing the stripped text. */
  function Candidates(tokens: seq<string>, text: string): (r: seq<string>)
    ensures IsSubsequence(r, tokens)
    ensures forall i :: 0 <= i < |r| ==> Contains(r[i], Strip(text))
  {
    var t := Strip(text);
    if t == "" then
      SubsequenceRefl(tokens);
      MatchesOfEmpty(tokens);
      tokens
    else MatchesOf(tokens, t)
  }

  /** `complete(text, state)`: returns the completer with `matches` set and
      the `state`-th candidate, or `None`. */
  function Complete(c: TagCompleter, text: string, state: int): (r: (TagCompleter, Option<string>))
    ensures r.0.tokens == c.tokens
    ensures IsSubsequence(r.0.matches, c.tokens)
    ensures forall i :: 0 <= i < |r.0.matches| ==> Contains(r.0.matches[i], Strip(text))
    ensures state >= 0 ==> (r.1 == None <==> state >= |r.0.matches|)
    ensures 0 <= state < |r.0.matches| ==> r.1 == Some(r.0.matches[state])
    ensures r.1.Some? ==> r.1.value in c.tokens && Contains(r.1.value, Strip(text))
  {
    var matches := Candidates(c.tokens, text);
    SubsequenceMembers(matches, c.tokens);
    (c.(matches := matches), Index(matches, state))
  }

  /** With blank text every pool token is a candidate: the answer is the
      pool's `state`-th token. */
  lemma CompleteBlank(c: TagCompleter, text: string, state: nat)
    requires AllSpace(text)
    ensures Complete(c, text, state).1 == if state < |c.tokens| then Some(c.tokens[state]) else None
  {
    StripIsSlice(text);
    var i, j :| 0 <= i <= j <= |text| && Strip(text) == text[i..j];
    if i < j {
      assert IsSpace(text[i]);
    }
  }

  /** With non-blank text the candidates are the pool tokens containing the
      stripped text, in pool order: every copy of such a token and no copy
      of any other. The answer is the `state`-th candidate. */
  lemma CompleteFiltered(c: TagCompleter, text: string, state: nat)
    requires Strip(text) != ""
    ensures var m := Complete(c, text, state).0.matches;
      && IsSubsequence(m, c.tokens)
      && (forall x :: multiset(m)[x] == if Contains(x, Strip(text)) then multiset(c.tokens)[x] else 0)
      && Complete(c, text, state).1 == if state < |m| then Some(m[state]) else None
  {
    MatchesOfCounts(c.tokens, Strip(text));
  }

  /** Two calls on the same pool agree: the previous `matches` plays no part. */
  lemma CompleteIgnoresMatches(c: TagCompleter, m: seq<string>, text: string, state: int)
    ensures Complete(c.(matches := m), text, state).1 == Complete(c, text, state).1
  {
  }

  /** `remove_tokens(tokens_to_remove)`: for each listed token in order,
      remove its first occurrence from the pool when it is there. */
  function RemoveTokens(pool: seq<string>, ts: seq<string>): seq<string>
    decreases |ts|
  {
    if |ts| == 0 then pool
    else
      var p := RemoveTokens(pool, ts[..|ts| - 1]);
      var t := ts[|ts| - 1];
      if t in p then RemoveFirst(p, t) else p
  }

  /** The new pool is the old one with each listed token taken out as many
      times as it is listed, as far as there are copies: multiset
      difference. It keeps the pool's order. */
  lemma {:induction false} RemoveTokensSpec(pool: seq<string>, ts: seq<string>)
    ensures multiset(RemoveTokens(pool, ts)) == multiset(pool) - multiset(ts)
    ensures IsSubsequence(RemoveTokens(pool, ts), pool)
    ensures |RemoveTokens(pool, ts)| >= |pool| - |ts|
  {
    RemoveTokensCount(pool, ts);
    RemoveTokensOrder(pool, ts);
    MultisetDifferenceSize(multiset(pool), multiset(ts));
  }

  lemma {:induction false} RemoveTokensCount(pool: seq<string>, ts: seq<string>)
    ensures multiset(RemoveTokens(pool, ts)) == multiset(pool) - multiset(ts)
    decreases |ts|
  {
    if |ts| > 0 {
      var init, t := ts[..|ts| - 1], ts[|ts| - 1];
      RemoveTokensCount(pool, init);
      var p := RemoveTokens(pool, init);
      assert ts == init + [t];
      if t in p {
        var i := FirstOccurrence(p, t);
        RemoveFirstCount(p, t, i);
      }
      DifferenceStep(multiset(pool), multiset(init), t);
    }
  }

  /** Taking one more `t` away removes a copy when there is one left. */
  lemma DifferenceStep(a: multiset<string>, b: multiset<string>, t: string)
    ensures t in a - b ==> a - (b + multiset{t}) == (a - b) - multiset{t}
    ensures t !in a - b ==> a - (b + multiset{t}) == a - b
  {
  }

  lemma {:induction false} RemoveTokensOrder(pool: seq<string>, ts: seq<string>)
    ensures IsSubsequence(RemoveTokens(pool, ts), pool)
    decreases |ts|
  {
    if |ts| == 0 {
      SubsequenceRefl(pool);
    } else {
      var init, t := ts[..|ts| - 1], ts[|ts| - 1];
      RemoveTokensOrder(pool, init);
      var p := RemoveTokens(pool, init);
      if t in p {
        var i := FirstOccurrence(p, t);
        RemoveFirstCount(p, t, i);
        SubsequenceTrans(RemoveFirst(p, t), p, pool);
      }
    }
  }

  lemma MultisetDifferenceSize(a: multiset<string>, b: multiset<string>)
    ensures |a - b| >= |a| - |b|
  {
    var c := a - b;
    assert a <= c + b;
    assert |a| <= |c + b| by {
      MultisetSubsetSize(a, c + b);
    }
  }

  lemma {:induction false} MultisetSubsetSize(a: multiset<string>, b: multiset<string>)
    requires a <= b
    ensures |a| <= |b|
    decreases |a|
  {
    if |a| > 0 {
      var x :| x in a;
      MultisetSubsetSize(a - multiset{x}, b - multiset{x});
    }
  }

  /** Listed tokens that are not in the pool are silently ignored. */
  lemma {:induction false} RemoveTokensDisjoint(pool: seq<string>, ts: seq<string>)
    requires forall t :: t in ts ==> t !in pool
    ensures RemoveTokens(pool, ts) == pool
    decreases |ts|
  {
    if |ts| > 0 {
      RemoveTokensDisjoint(pool, ts[..|ts| - 1]);
      assert ts[|ts| - 1] in ts;
    }
  }

  /** Removing `a` then `b` is removing `a + b`: the loop is a fold. */
  lemma {:induction false} RemoveTokensAppend(pool: seq<string>, a: seq<string>, b: seq<string>)
    ensures RemoveTokens(pool, a + b) == RemoveTokens(RemoveTokens(pool, a), b)
    decreases |b|
  {
    if |b| == 0 {
      assert a + b == a;
    } else {
      RemoveTokensAppend(pool, a, b[..|b| - 1]);
      assert (a + b)[..|a + b| - 1] == a + b[..|b| - 1];
    }
  }

  /** `remove_tokens(["a"])` on the pool `["a", "b", "a"]` drops only the
      first "a", so blank-text completion still offers "a" at index 1. */
  lemma RemoveFirstOccurrenceExample()
    ensures RemoveTokens(["a", "b", "a"], ["a"]) == ["b", "a"]
    ensures Complete(NewCompleter(["b", "a"]), "", 1).1 == Some("a")
  {
    assert RemoveTokens(["a", "b", "a"], []) == ["a", "b", "a"];
    assert RemoveFirst(["a", "b", "a"], "a") == ["b", "a"];
    CompleteBlank(NewCompleter(["b", "a"]), "", 1);
  }
}
