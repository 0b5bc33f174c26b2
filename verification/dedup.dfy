/** `remove_dups` (sd_tag_organizer/utils.py, and its textually identical
    copy in categorize-tokens.py): keep the first occurrence of every token,
    except that the keywords of `ALLOWED_KEYWORDS` are kept every time. */
module Dedup {
  import opened Seqs

  /** The one exempt keyword of the source's `ALLOWED_KEYWORDS` list. */
  const Break := "BREAK"
  const AllowedKeywords: seq<string> := [Break]

  /** Every value other than the exempt keyword occurs at most once. */
  predicate AtMostOnceExceptBreak(xs: seq<string>) {
    forall i, j :: 0 <= i < j < |xs| && xs[i] == xs[j] ==> xs[i] == Break
  }

  /** `remove_dups(tokens)`: the loop appends a token when it is not yet in
      the pruned list or is an allowed keyword. */
  function RemoveDups(tokens: seq<string>): (r: seq<string>)
    ensures |r| <= |tokens|
    decreases |tokens|
  {
    if |tokens| == 0 then []
    else
      var init, t := tokens[..|tokens| - 1], tokens[|tokens| - 1];
      var pruned := RemoveDups(init);
      if t !in pruned || t in AllowedKeywords then pruned + [t] else pruned
  }

  /** The output keeps the input's order, loses no distinct token, holds
      every other token at most once and every "BREAK" of the input. */
  lemma RemoveDupsSpec(tokens: seq<string>)
    ensures IsSubsequence(RemoveDups(tokens), tokens)
    ensures forall x :: x in RemoveDups(tokens) <==> x in tokens
    ensures AtMostOnceExceptBreak(RemoveDups(tokens))
    ensures multiset(RemoveDups(tokens))[Break] == multiset(tokens)[Break]
  {
    RemoveDupsMembers(tokens);
    RemoveDupsOnce(tokens);
    RemoveDupsBreaks(tokens);
  }

  /** The last token is appended exactly when the loop's test admits it. */
  lemma RemoveDupsLast(tokens: seq<string>)
    requires |tokens| > 0
    ensures var init, t := tokens[..|tokens| - 1], tokens[|tokens| - 1];
      RemoveDups(tokens)
      == if t !in RemoveDups(init) || t == Break then RemoveDups(init) + [t] else RemoveDups(init)
  {
  }

  lemma {:induction false} RemoveDupsMembers(tokens: seq<string>)
    ensures IsSubsequence(RemoveDups(tokens), tokens)
    ensures forall x :: x in RemoveDups(tokens) <==> x in tokens
    decreases |tokens|
  {
    if |tokens| > 0 {
      var init, t := tokens[..|tokens| - 1], tokens[|tokens| - 1];
      RemoveDupsMembers(init);
      RemoveDupsLast(tokens);
      assert tokens == init + [t];
      SubsequenceExtend(RemoveDups(init), init, t);
    }
  }

  lemma {:induction false} RemoveDupsOnce(tokens: seq<string>)
    ensures AtMostOnceExceptBreak(RemoveDups(tokens))
    decreases |tokens|
  {
    if |tokens| > 0 {
      var init, t := tokens[..|tokens| - 1], tokens[|tokens| - 1];
      RemoveDupsOnce(init);
      RemoveDupsLast(tokens);
      var pruned := RemoveDups(init);
      if t !in pruned || t == Break {
        var r := pruned + [t];
        forall i, j | 0 <= i < j < |r| && r[i] == r[j]
          ensures r[i] == Break
        {
          if j < |pruned| {
            assert pruned[i] == pruned[j];
          } else {
            assert r[i] == pruned[i];
          }
        }
      }
    }
  }

  lemma {:induction false} RemoveDupsBreaks(tokens: seq<string>)
    ensures multiset(RemoveDups(tokens))[Break] == multiset(tokens)[Break]
    decreases |tokens|
  {
    if |tokens| > 0 {
      var init, t := tokens[..|tokens| - 1], tokens[|tokens| - 1];
      RemoveDupsBreaks(init);
      RemoveDupsLast(tokens);
      assert tokens == init + [t];
    }
  }

  /** Reference definition: position `i` survives exactly when `tokens[i]` is
      the exempt keyword or does not occur before `i` in the input. */
  function KeepFirst(tokens: seq<string>): seq<string>
    decreases |tokens|
  {
    if |tokens| == 0 then []
    else
      var init, t := tokens[..|tokens| - 1], tokens[|tokens| - 1];
      KeepFirst(init) + (if t == Break || t !in init then [t] else [])
  }

  /** The loop's test against its own output agrees with the reference's
      test against the input prefix. */
  lemma {:induction false} RemoveDupsIsKeepFirst(tokens: seq<string>)
    ensures RemoveDups(tokens) == KeepFirst(tokens)
    decreases |tokens|
  {
    if |tokens| > 0 {
      RemoveDupsIsKeepFirst(tokens[..|tokens| - 1]);
      RemoveDupsSpec(tokens[..|tokens| - 1]);
    }
  }

  /** A list that already satisfies the output invariant is left as it is. */
  lemma {:induction false} RemoveDupsFixpoint(xs: seq<string>)
    requires AtMostOnceExceptBreak(xs)
    ensures RemoveDups(xs) == xs
    decreases |xs|
  {
    if |xs| > 0 {
      var init, t := xs[..|xs| - 1], xs[|xs| - 1];
      assert AtMostOnceExceptBreak(init) by {
        forall i, j | 0 <= i < j < |init| && init[i] == init[j]
          ensures init[i] == Break
        {
          assert xs[i] == init[i] && xs[j] == init[j];
        }
      }
      RemoveDupsFixpoint(init);
      if t == Break {
        assert t in AllowedKeywords;
      } else {
        assert t !in init by {
          forall i | 0 <= i < |init|
            ensures init[i] != t
          {
            assert xs[i] == init[i];
          }
        }
      }
      assert RemoveDups(xs) == RemoveDups(init) + [t];
      assert xs == init + [t];
    }
  }

  /** Deduplicating twice is the same as deduplicating once. */
  lemma RemoveDupsIdempotent(tokens: seq<string>)
    ensures RemoveDups(RemoveDups(tokens)) == RemoveDups(tokens)
  {
    RemoveDupsSpec(tokens);
    RemoveDupsFixpoint(RemoveDups(tokens));
  }

  lemma RemoveDupsSnoc(xs: seq<string>, t: string)
    ensures RemoveDups(xs + [t])
         == if t !in RemoveDups(xs) || t == Break then RemoveDups(xs) + [t] else RemoveDups(xs)
  {
    assert (xs + [t])[..|xs|] == xs;
  }

  /** A repeated ordinary token is dropped, every "BREAK" is kept. */
  lemma {:induction false} RemoveDupsKeepsEveryBreak(x: string)
    requires x != Break
    ensures RemoveDups([x, x, Break, x, Break]) == [x, Break, Break]
  {
    RemoveDupsRepeated(x);
    RemoveDupsSnoc([x, x, Break, x], Break);
    assert [x, x, Break, x] + [Break] == [x, x, Break, x, Break];
  }

  lemma RemoveDupsRepeated(x: string)
    requires x != Break
    ensures RemoveDups([x, x, Break, x]) == [x, Break]
  {
    RemoveDupsFirstBreak(x);
    RemoveDupsSnoc([x, x, Break], x);
    assert [x, x, Break] + [x] == [x, x, Break, x];
  }

  lemma RemoveDupsFirstBreak(x: string)
    requires x != Break
    ensures RemoveDups([x, x, Break]) == [x, Break]
  {
    RemoveDupsPair(x);
    RemoveDupsSnoc([x, x], Break);
    assert [x, x] + [Break] == [x, x, Break];
  }

  /** A repeated ordinary token is kept once. */
  lemma RemoveDupsPair(x: string)
    requires x != Break
    ensures RemoveDups([x, x]) == [x]
  {
    assert RemoveDups([]) == [];
    RemoveDupsSnoc([], x);
    assert [] + [x] == [x];
    assert RemoveDups([x]) == [x];
    RemoveDupsSnoc([x], x);
    assert [x] + [x] == [x, x];
  }

  lemma RemoveDupsExample()
    ensures RemoveDups(["x", "x", "BREAK", "x", "BREAK"]) == ["x", "BREAK", "BREAK"]
  {
    assert "x"[0] != "BREAK"[0];
    RemoveDupsKeepsEveryBreak("x");
  }
}
