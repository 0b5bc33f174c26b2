/** The `"\n"` marker of `categorize_tokens` (sd_tag_organizer/categorize.py,
    line 57) is applied before the category's tokens are passed to
    `remove_tokens` and before they join the output that the final loop
    checks. The last token of each category therefore reaches neither test
    in its plain form: it stays in the completion pool, and if the prompt
    holds it, it is appended a second time. This module exhibits that on a
    two-token prompt and defines the evidently intended behaviour, in which
    the marker only decorates the output copy. */
module Findings {
  import opened Seqs
  import opened Completer
  import opened Categorize

  /** Categorizing one single-token answer `a` out of the prompt `[a, b]`:
      the marked `"\n" + a` is what the final membership test sees, so the
      plain `a` is appended a second time. */
  lemma MarkedTokenAppendedAgain(a: string, b: string, cat: string)
    requires a != "" && ',' !in a && a != b && b != "\n" + a
    ensures CategorizeTokens([a, b], NewCompleter([a, b]), [cat], [Line(a)]).0 == ["\n" + a, a, b]
  {
    assert Categories([cat]) == [cat];
    SingleAnswer(cat, a);
    MarkedMissesPlain(a, b);
    var m := ["\n" + a];
    assert CategorizeTokens([a, b], NewCompleter([a, b]), [cat], [Line(a)]).0 == m + Fresh([a, b], m);
  }

  /** The marked token is also what `remove_tokens` sees, so the plain `a`
      stays in the pool. */
  lemma MarkedTokenStaysInPool(a: string, b: string, cat: string)
    requires a != "" && ',' !in a && a != b && b != "\n" + a
    ensures CategorizeTokens([a, b], NewCompleter([a, b]), [cat], [Line(a)]).1 == NewCompleter([a, b])
  {
    SingleAnswer(cat, a);
    MarkedMissesPlain(a, b);
    assert Categories([cat]) == [cat];
  }

  /** With the prompt ["a", "b"] and the answer "a": the output is
      ["\na", "a", "b"] and "a" is still offered for completion. */
  lemma MarkedTokenExample()
    ensures CategorizeTokens(["a", "b"], NewCompleter(["a", "b"]), ["subject"], [Line("a")])
         == (["\n" + "a", "a", "b"], NewCompleter(["a", "b"]))
  {
    assert |"b"| != |"\n" + "a"|;
    MarkedTokenAppendedAgain("a", "b", "subject");
    MarkedTokenStaysInPool("a", "b", "subject");
  }

  /** The marked token matches neither plain token. */
  lemma MarkedMissesPlain(a: string, b: string)
    requires a != b && b != "\n" + a
    ensures RemoveTokens([a, b], ["\n" + a]) == [a, b]
    ensures Fresh([a, b], ["\n" + a]) == [a, b]
  {
    assert "\n" + a != a by {
      assert |"\n" + a| != |a|;
    }
    RemoveTokensDisjoint([a, b], ["\n" + a]);
    FreshUnseen([a, b], ["\n" + a]);
  }

  /** One category answered with one plain token. */
  lemma SingleAnswer(cat: string, a: string)
    requires a != "" && ',' !in a
    ensures Groups([cat], [Line(a)]) == [[a]]
    ensures Marked([cat], [Line(a)]) == ["\n" + a]
  {
    var cats, rs := [cat], [Line(a)];
    assert CategoryTokens(a) == [a];
    assert Groups(cats[1..], Rest(rs)) == [];
    assert Groups(cats, rs) == [[a]];
    assert MarkLast([a]) == ["\n" + a];
    assert MarkAll([[a]]) == [["\n" + a]] by {
      assert [[a]][1..] == [];
    }
    assert Flatten([["\n" + a]]) == ["\n" + a] by {
      assert [["\n" + a]][1..] == [];
    }
  }

  /** The tokens the answered categories name, unmarked. */
  function Assigned(cats: seq<string>, rs: seq<Response>): seq<string> {
    Flatten(Groups(cats, rs))
  }

  /** Corrected loop: the unmarked tokens are removed from the pool and
      remembered, and only the output copy gets the marker. */
  function FixedLoop(cats: seq<string>, rs: seq<Response>, out: seq<string>, taken: seq<string>, pool: seq<string>)
    : (seq<string>, seq<string>, seq<string>)
    decreases |cats|
  {
    if |cats| == 0 then (out, taken, pool)
    else match Head(rs)
      case Interrupt => (out, taken, pool)
      case Eof => FixedLoop(cats[1..], Rest(rs), out, taken, pool)
      case Line(s) =>
        if s == "" then FixedLoop(cats[1..], Rest(rs), out, taken, pool)
        else
          var ts := CategoryTokens(s);
          FixedLoop(cats[1..], Rest(rs), out + MarkLast(ts), taken + ts, RemoveTokens(pool, ts))
  }

  lemma {:induction false} FixedLoopIsGroups(cats: seq<string>, rs: seq<Response>, out: seq<string>, taken: seq<string>, pool: seq<string>)
    ensures FixedLoop(cats, rs, out, taken, pool)
         == (out + Marked(cats, rs), taken + Assigned(cats, rs), RemoveTokens(pool, Assigned(cats, rs)))
    decreases |cats|
  {
    if |cats| == 0 || Head(rs) == Interrupt {
      assert Groups(cats, rs) == [];
      assert out + [] == out && taken + [] == taken;
    } else if Skips(Head(rs)) {
      FixedSkipStep(cats, rs, out, taken, pool);
      FixedLoopIsGroups(cats[1..], Rest(rs), out, taken, pool);
    } else {
      var ts := CategoryTokens(Head(rs).text);
      var marked := MarkLast(ts);
      var rest, restA := Marked(cats[1..], Rest(rs)), Assigned(cats[1..], Rest(rs));
      FixedAnsweredStep(cats, rs, out, taken, pool);
      FixedLoopIsGroups(cats[1..], Rest(rs), out + marked, taken + ts, RemoveTokens(pool, ts));
      MarkedAnswered(cats, rs);
      AssignedAnswered(cats, rs);
      assert (out + marked) + rest == out + (marked + rest);
      assert (taken + ts) + restA == taken + (ts + restA);
      RemoveTokensAppend(pool, ts, restA);
    }
  }

  /** A skipped category changes neither the corrected loop's state nor the
      categorized tokens. */
  lemma FixedSkipStep(cats: seq<string>, rs: seq<Response>, out: seq<string>, taken: seq<string>, pool: seq<string>)
    requires |cats| > 0 && Skips(Head(rs))
    ensures FixedLoop(cats, rs, out, taken, pool) == FixedLoop(cats[1..], Rest(rs), out, taken, pool)
    ensures Marked(cats, rs) == Marked(cats[1..], Rest(rs))
    ensures Assigned(cats, rs) == Assigned(cats[1..], Rest(rs))
  {
    assert Groups(cats, rs) == Groups(cats[1..], Rest(rs));
  }

  lemma FixedAnsweredStep(cats: seq<string>, rs: seq<Response>, out: seq<string>, taken: seq<string>, pool: seq<string>)
    requires |cats| > 0 && Head(rs).Line? && Head(rs).text != ""
    ensures var ts := CategoryTokens(Head(rs).text);
      FixedLoop(cats, rs, out, taken, pool)
      == FixedLoop(cats[1..], Rest(rs), out + MarkLast(ts), taken + ts, RemoveTokens(pool, ts))
  {
  }

  /** An answered category puts its unmarked tokens first. */
  lemma AssignedAnswered(cats: seq<string>, rs: seq<Response>)
    requires |cats| > 0 && Head(rs).Line? && Head(rs).text != ""
    ensures Assigned(cats, rs) == CategoryTokens(Head(rs).text) + Assigned(cats[1..], Rest(rs))
  {
    var ts := CategoryTokens(Head(rs).text);
    assert Groups(cats, rs) == [ts] + Groups(cats[1..], Rest(rs));
    assert ([ts] + Groups(cats[1..], Rest(rs)))[1..] == Groups(cats[1..], Rest(rs));
  }

  /** Corrected final loop: skip prompt tokens already in the output or
      already taken to a category. */
  function AppendUnassigned(out: seq<string>, taken: seq<string>, prompt: seq<string>): seq<string>
    decreases |prompt|
  {
    if |prompt| == 0 then out
    else
      var o := AppendUnassigned(out, taken, prompt[..|prompt| - 1]);
      var p := prompt[|prompt| - 1];
      if p !in o && p !in taken then o + [p] else o
  }

  lemma {:induction false} AppendUnassignedIsFresh(out: seq<string>, taken: seq<string>, prompt: seq<string>)
    ensures AppendUnassigned(out, taken, prompt) == out + Fresh(prompt, out + taken)
    decreases |prompt|
  {
    if |prompt| > 0 {
      var init, p := prompt[..|prompt| - 1], prompt[|prompt| - 1];
      var seen := out + taken;
      AppendUnassignedIsFresh(out, taken, init);
      assert prompt == init + [p];
      assert p in out + Fresh(init, seen) <==> p in out || (p in init && p !in taken);
      if p !in seen && p !in init {
        assert Fresh(prompt, seen) == Fresh(init, seen) + [p];
      } else {
        assert Fresh(prompt, seen) == Fresh(init, seen);
      }
    }
  }

  /** `categorize_tokens` with the marker applied only to the output copy:
      the output is the marked category tokens followed by the prompt tokens
      neither in it nor categorized; the pool loses one copy of each
      categorized token it holds. */
  function CategorizeFixed(prompt: seq<string>, c: TagCompleter, categoryList: seq<string>, rs: seq<Response>)
    : (r: (seq<string>, TagCompleter))
    ensures var m, a := Marked(Categories(categoryList), rs), Assigned(Categories(categoryList), rs);
      r.0 == m + Fresh(prompt, m + a)
    ensures var a := Assigned(Categories(categoryList), rs);
      r.1 == c.(tokens := RemoveTokens(c.tokens, a))
    ensures var a := Assigned(Categories(categoryList), rs);
      multiset(r.1.tokens) == multiset(c.tokens) - multiset(a)
  {
    var cats := Categories(categoryList);
    var (out, taken, pool) := FixedLoop(cats, rs, [], [], c.tokens);
    FixedLoopIsGroups(cats, rs, [], [], c.tokens);
    assert [] + Marked(cats, rs) == Marked(cats, rs);
    assert [] + Assigned(cats, rs) == Assigned(cats, rs);
    AppendUnassignedIsFresh(out, taken, prompt);
    RemoveTokensSpec(c.tokens, Assigned(cats, rs));
    (AppendUnassigned(out, taken, prompt), c.(tokens := pool))
  }

  /** What the corrected version promises: a categorized token is not
      appended again, every prompt token is categorized or appended, and a
      categorized token the pool held once is no longer offered. */
  lemma CategorizeFixedIntended(prompt: seq<string>, c: TagCompleter, categoryList: seq<string>, rs: seq<Response>)
    ensures var r, m, a := CategorizeFixed(prompt, c, categoryList, rs), Marked(Categories(categoryList), rs), Assigned(Categories(categoryList), rs);
      && r.0[..|m|] == m
      && (forall x :: x in r.0[|m|..] ==> x in prompt && x !in a)
      && (forall x :: x in prompt ==> x in r.0 || x in a)
      && (forall x :: x in a && multiset(c.tokens)[x] <= 1 ==> x !in r.1.tokens)
  {
    var r := CategorizeFixed(prompt, c, categoryList, rs);
    var m, a := Marked(Categories(categoryList), rs), Assigned(Categories(categoryList), rs);
    assert r.0[..|m|] == m;
    assert r.0[|m|..] == Fresh(prompt, m + a);
    forall x | x in prompt
      ensures x in r.0 || x in a
    {
      if x !in m && x !in a {
        assert x in Fresh(prompt, m + a);
      }
    }
    forall x | x in a && multiset(c.tokens)[x] <= 1
      ensures x !in r.1.tokens
    {
      assert multiset(a)[x] >= 1;
    }
  }

  /** On the same input the corrected version takes `a` out of the pool and
      does not append it again. */
  lemma FixedRemovesCategorized(a: string, b: string, cat: string)
    requires a != "" && ',' !in a && a != b && b != "\n" + a
    ensures CategorizeFixed([a, b], NewCompleter([a, b]), [cat], [Line(a)])
         == (["\n" + a, b], NewCompleter([b]))
  {
    var cats, rs := [cat], [Line(a)];
    assert Categories(cats) == cats;
    FixedSingleAnswer(a, b, cat);
    var m, taken := Marked(cats, rs), Assigned(cats, rs);
    var r := CategorizeFixed([a, b], NewCompleter([a, b]), [cat], rs);
    assert r.0 == m + Fresh([a, b], m + taken);
    assert r.1 == NewCompleter([a, b]).(tokens := RemoveTokens([a, b], taken));
    assert ["\n" + a] + [b] == ["\n" + a, b];
  }

  /** The pieces of the corrected result for one plain answer `a`. */
  lemma FixedSingleAnswer(a: string, b: string, cat: string)
    requires a != "" && ',' !in a && a != b && b != "\n" + a
    ensures Marked([cat], [Line(a)]) == ["\n" + a]
    ensures Assigned([cat], [Line(a)]) == [a]
    ensures RemoveTokens([a, b], [a]) == [b]
    ensures Fresh([a, b], ["\n" + a] + [a]) == [b]
  {
    SingleAnswer(cat, a);
    assert Assigned([cat], [Line(a)]) == [a] by {
      assert [[a]][1..] == [];
    }
    assert RemoveTokens([a, b], [a]) == [b] by {
      assert RemoveTokens([a, b], []) == [a, b];
      assert [a][..0] == [];
      assert RemoveFirst([a, b], a) == [b];
    }
    var seen := ["\n" + a] + [a];
    assert Fresh([a, b], seen) == [b] by {
      assert Fresh([a], seen) == [] by {
        assert Fresh([], seen) == [];
        assert [a][..0] == [];
      }
      assert [a, b][..1] == [a];
    }
  }

  lemma FixedRemovesCategorizedExample()
    ensures CategorizeFixed(["a", "b"], NewCompleter(["a", "b"]), ["subject"], [Line("a")])
         == (["\n" + "a", "b"], NewCompleter(["b"]))
  {
    assert |"b"| != |"\n" + "a"|;
    FixedRemovesCategorized("a", "b", "subject");
  }
}
