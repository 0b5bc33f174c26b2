/** `categorize_tokens` (sd_tag_organizer/categorize.py): asks once per
    category for that category's tokens, appends them to the output and takes
    them out of the completion pool, and finally appends every prompt token
    the output does not hold yet.

    The interaction is a parameter: the answers to the category prompts are a
    sequence of `Response`s, one per category in order. */
module Categorize {
  import opened Seqs
  import Tokenizer
  import Dedup
  import opened Completer

  /** The categories asked for when the caller gives none. */
  const DefaultCategories: seq<string> := ["headers", "style", "subject", "pov", "footers"]

  /** The caller's categories, or the defaults when the list is empty. */
  function Categories(categoryList: seq<string>): seq<string>
  {
    if |categoryList| > 0 then categoryList else DefaultCategories
  }

  /** What `input()` does at one category prompt: end of file (`EOFError`),
      Ctrl+C (`KeyboardInterrupt`), or a line of text. */
  datatype Response = Eof | Interrupt | Line(text: string)

  /** An empty line is handled exactly like end of file. */
  predicate Skips(r: Response) {
    r == Eof || r == Line("")
  }

  /** Once the answers run out, every further prompt reads end of file. */
  function Head(rs: seq<Response>): Response {
    if |rs| > 0 then rs[0] else Eof
  }

  function Rest(rs: seq<Response>): seq<Response> {
    if |rs| > 0 then rs[1..] else []
  }

  /** The tokens one non-empty answer names: with a comma it is split and
      deduplicated (first occurrences, every "BREAK"); without one it is a
      single token, kept verbatim. */
  function CategoryTokens(line: string): (r: seq<string>)
    requires line != ""
    ensures |r| >= 1
    ensures ',' !in line ==> r == [line]
    ensures ',' in line ==> Seqs.IsSubsequence(r, Tokenizer.SplitTokens(line))
    ensures ',' in line ==> forall t :: t in r <==> t in Tokenizer.SplitTokens(line)
    ensures ',' in line ==> Dedup.AtMostOnceExceptBreak(r)
    ensures ',' in line ==> multiset(r)[Dedup.Break] == multiset(Tokenizer.SplitTokens(line))[Dedup.Break]
    ensures ',' in line ==> r == Dedup.KeepFirst(Tokenizer.SplitTokens(line))
  {
    if ',' in line then
      var ts := Tokenizer.SplitTokens(line);
      Dedup.RemoveDupsSpec(ts);
      Dedup.RemoveDupsIsKeepFirst(ts);
      assert ts[0] in Dedup.RemoveDups(ts);
      Dedup.RemoveDups(ts)
    else [line]
  }

  /** `category_tokens[-1] = "\n" + category_tokens[-1]`. */
  function MarkLast(ts: seq<string>): (r: seq<string>)
    requires |ts| >= 1
    ensures |r| == |ts|
  {
    ts[..|ts| - 1] + ["\n" + ts[|ts| - 1]]
  }

  /** Reference definition: the token lists of the categories that receive
      an answer, in category order, before any marking. Skipped categories
      contribute nothing and an interrupt ends the list. */
  function Groups(cats: seq<string>, rs: seq<Response>): (gs: seq<seq<string>>)
    ensures |gs| <= |cats|
    ensures forall i :: 0 <= i < |gs| ==> |gs[i]| >= 1
    decreases |cats|
  {
    if |cats| == 0 then []
    else match Head(rs)
      case Interrupt => []
      case Eof => Groups(cats[1..], Rest(rs))
      case Line(s) =>
        if s == "" then Groups(cats[1..], Rest(rs))
        else [CategoryTokens(s)] + Groups(cats[1..], Rest(rs))
  }

  /** Each category's list with its last token marked. */
  function MarkAll(gs: seq<seq<string>>): (r: seq<seq<string>>)
    requires forall i :: 0 <= i < |gs| ==> |gs[i]| >= 1
    ensures |r| == |gs|
    decreases |gs|
  {
    if |gs| == 0 then [] else [MarkLast(gs[0])] + MarkAll(gs[1..])
  }

  /** The marked tokens of all answered categories, in order. */
  function Marked(cats: seq<string>, rs: seq<Response>): seq<string> {
    Flatten(MarkAll(Groups(cats, rs)))
  }

  /** The category loop as written: the output and the pool are threaded
      through the categories. */
  function Loop(cats: seq<string>, rs: seq<Response>, out: seq<string>, pool: seq<string>): (seq<string>, seq<string>)
    decreases |cats|
  {
    if |cats| == 0 then (out, pool)
    else match Head(rs)
      case Interrupt => (out, pool)
      case Eof => Loop(cats[1..], Rest(rs), out, pool)
      case Line(s) =>
        if s == "" then Loop(cats[1..], Rest(rs), out, pool)
        else
          var marked := MarkLast(CategoryTokens(s));
          Loop(cats[1..], Rest(rs), out + marked, RemoveTokens(pool, marked))
  }

  /** An answered category puts its marked tokens first. */
  lemma MarkedAnswered(cats: seq<string>, rs: seq<Response>)
    requires |cats| > 0 && Head(rs).Line? && Head(rs).text != ""
    ensures Marked(cats, rs) == MarkLast(CategoryTokens(Head(rs).text)) + Marked(cats[1..], Rest(rs))
  {
    var g := CategoryTokens(Head(rs).text);
    var gs := Groups(cats[1..], Rest(rs));
    assert Groups(cats, rs) == [g] + gs;
    assert ([g] + gs)[1..] == gs;
    assert MarkAll([g] + gs) == [MarkLast(g)] + MarkAll(gs);
  }

  /** The loop appends the marked groups of the answered categories to the
      output and removes exactly those tokens from the pool. */
  lemma {:induction false} LoopIsGroups(cats: seq<string>, rs: seq<Response>, out: seq<string>, pool: seq<string>)
    ensures Loop(cats, rs, out, pool) == (out + Marked(cats, rs), RemoveTokens(pool, Marked(cats, rs)))
    decreases |cats|
  {
    if |cats| == 0 || Head(rs) == Interrupt {
      assert Groups(cats, rs) == [];
      assert Marked(cats, rs) == [];
      assert out + [] == out;
    } else if Skips(Head(rs)) {
      LoopSkipStep(cats, rs, out, pool);
      LoopIsGroups(cats[1..], Rest(rs), out, pool);
    } else {
      var marked := MarkLast(CategoryTokens(Head(rs).text));
      var rest := Marked(cats[1..], Rest(rs));
      LoopAnsweredStep(cats, rs, out, pool);
      LoopIsGroups(cats[1..], Rest(rs), out + marked, RemoveTokens(pool, marked));
      MarkedAnswered(cats, rs);
      assert (out + marked) + rest == out + (marked + rest);
      RemoveTokensAppend(pool, marked, rest);
    }
  }

  /** A skipped category changes neither the loop state nor the groups. */
  lemma LoopSkipStep(cats: seq<string>, rs: seq<Response>, out: seq<string>, pool: seq<string>)
    requires |cats| > 0 && Skips(Head(rs))
    ensures Loop(cats, rs, out, pool) == Loop(cats[1..], Rest(rs), out, pool)
    ensures Marked(cats, rs) == Marked(cats[1..], Rest(rs))
  {
    assert Groups(cats, rs) == Groups(cats[1..], Rest(rs));
  }

  /** An answered category extends the output and shrinks the pool by its
      marked tokens before the loop moves on. */
  lemma LoopAnsweredStep(cats: seq<string>, rs: seq<Response>, out: seq<string>, pool: seq<string>)
    requires |cats| > 0 && Head(rs).Line? && Head(rs).text != ""
    ensures var marked := MarkLast(CategoryTokens(Head(rs).text));
      Loop(cats, rs, out, pool) == Loop(cats[1..], Rest(rs), out + marked, RemoveTokens(pool, marked))
  {
  }

  /** The final loop: append each prompt token not already in the output. */
  function AppendMissing(out: seq<string>, prompt: seq<string>): seq<string>
    decreases |prompt|
  {
    if |prompt| == 0 then out
    else
      var o := AppendMissing(out, prompt[..|prompt| - 1]);
      var p := prompt[|prompt| - 1];
      if p !in o then o + [p] else o
  }

  /** The final loop adds the first occurrence of each prompt token that is
      not in `out`, in prompt order. */
  lemma {:induction false} AppendMissingIsFresh(out: seq<string>, prompt: seq<string>)
    ensures AppendMissing(out, prompt) == out + Fresh(prompt, out)
    decreases |prompt|
  {
    if |prompt| > 0 {
      var init, p := prompt[..|prompt| - 1], prompt[|prompt| - 1];
      AppendMissingIsFresh(out, init);
      assert prompt == init + [p];
      assert p in out + Fresh(init, out) <==> p in out || p in init;
      if p !in out && p !in init {
        assert Fresh(prompt, out) == Fresh(init, out) + [p];
      } else {
        assert Fresh(prompt, out) == Fresh(init, out);
      }
    }
  }

  /** `categorize_tokens(prompt_tokens, completer, category_list)` as
      written: the categorized tokens, and the completer afterwards. The
      output is the marked category tokens followed by the first occurrence
      of each prompt token they do not contain; the pool is what
      `remove_tokens` leaves of it given the marked tokens. */
  function CategorizeTokens(prompt: seq<string>, c: TagCompleter, categoryList: seq<string>, rs: seq<Response>)
    : (r: (seq<string>, TagCompleter))
    ensures var m := Marked(Categories(categoryList), rs);
      r == (m + Fresh(prompt, m), c.(tokens := RemoveTokens(c.tokens, m)))
  {
    var cats := Categories(categoryList);
    var (out, pool) := Loop(cats, rs, [], c.tokens);
    LoopIsGroups(cats, rs, [], c.tokens);
    assert [] + Marked(cats, rs) == Marked(cats, rs);
    AppendMissingIsFresh(out, prompt);
    (AppendMissing(out, prompt), c.(tokens := pool))
  }

  /** Every prompt token is in the output; the pool keeps its order and
      loses one copy of each marked token it holds; `matches` is untouched. */
  lemma CategorizeTokensKeepsPrompt(prompt: seq<string>, c: TagCompleter, categoryList: seq<string>, rs: seq<Response>)
    ensures var r, m := CategorizeTokens(prompt, c, categoryList, rs), Marked(Categories(categoryList), rs);
      && (forall x :: x in prompt ==> x in r.0)
      && multiset(r.1.tokens) == multiset(c.tokens) - multiset(m)
      && IsSubsequence(r.1.tokens, c.tokens)
      && r.1.matches == c.matches
  {
    var m := Marked(Categories(categoryList), rs);
    RemoveTokensSpec(c.tokens, m);
  }

  /** Only answered categories produce tokens: when every answer is empty
      or end of file there are none. */
  lemma {:induction false} GroupsAllSkipped(cats: seq<string>, rs: seq<Response>)
    requires forall i :: 0 <= i < |rs| ==> Skips(rs[i])
    ensures Groups(cats, rs) == []
    decreases |cats|
  {
    if |cats| > 0 {
      assert Skips(Head(rs));
      assert forall i :: 0 <= i < |Rest(rs)| ==> Rest(rs)[i] == rs[i + 1];
      GroupsAllSkipped(cats[1..], Rest(rs));
    }
  }

  /** With no category answered, the output is the prompt with later
      repeats dropped (no keyword is exempt here) and the pool is as it was. */
  lemma CategorizeAllSkipped(prompt: seq<string>, c: TagCompleter, categoryList: seq<string>, rs: seq<Response>)
    requires forall i :: 0 <= i < |rs| ==> Skips(rs[i])
    ensures CategorizeTokens(prompt, c, categoryList, rs).0 == Fresh(prompt, [])
    ensures Distinct(CategorizeTokens(prompt, c, categoryList, rs).0)
    ensures CategorizeTokens(prompt, c, categoryList, rs).1 == c
  {
    var cats := Categories(categoryList);
    GroupsAllSkipped(cats, rs);
    assert Marked(cats, rs) == [];
    LoopIsGroups(cats, rs, [], c.tokens);
  }

  /** A skipped category contributes nothing: dropping it together with its
      answer leaves the categorized tokens, and so the output and the pool,
      as they were. */
  lemma {:induction false} GroupsSkip(cats: seq<string>, rs: seq<Response>, k: nat)
    requires k < |cats| && k < |rs| && Skips(rs[k])
    ensures Groups(cats, rs) == Groups(cats[..k] + cats[k + 1..], rs[..k] + rs[k + 1..])
    ensures Marked(cats, rs) == Marked(cats[..k] + cats[k + 1..], rs[..k] + rs[k + 1..])
    decreases k
  {
    var cats', rs' := cats[..k] + cats[k + 1..], rs[..k] + rs[k + 1..];
    if k == 0 {
      assert cats' == cats[1..] && rs' == Rest(rs);
      assert Groups(cats, rs) == Groups(cats[1..], Rest(rs));
    } else {
      assert Head(rs') == Head(rs);
      assert cats'[1..] == cats[1..][..k - 1] + cats[1..][k..];
      assert Rest(rs') == Rest(rs)[..k - 1] + Rest(rs)[k..];
      GroupsSkip(cats[1..], Rest(rs), k - 1);
    }
  }

  /** An interrupt at prompt `k` ends the loop: the result is as if the
      answers had stopped there. */
  lemma {:induction false} GroupsInterrupt(cats: seq<string>, rs: seq<Response>, k: nat)
    requires k < |rs| && rs[k] == Interrupt
    ensures Groups(cats, rs) == Groups(cats, rs[..k])
    decreases k
  {
    if k == 0 {
      GroupsAllSkipped(cats, rs[..0]);
    } else if |cats| > 0 {
      assert Head(rs[..k]) == Head(rs);
      assert Rest(rs[..k]) == Rest(rs)[..k - 1];
      GroupsInterrupt(cats[1..], Rest(rs), k - 1);
    }
  }

  /** So an interrupt keeps what was categorized before it, and the final
      append still runs. */
  lemma CategorizeInterrupt(prompt: seq<string>, c: TagCompleter, categoryList: seq<string>, rs: seq<Response>, k: nat)
    requires k < |rs| && rs[k] == Interrupt
    ensures CategorizeTokens(prompt, c, categoryList, rs) == CategorizeTokens(prompt, c, categoryList, rs[..k])
  {
    var cats := Categories(categoryList);
    GroupsInterrupt(cats, rs, k);
    LoopIsGroups(cats, rs, [], c.tokens);
    LoopIsGroups(cats, rs[..k], [], c.tokens);
    assert Loop(cats, rs, [], c.tokens) == Loop(cats, rs[..k], [], c.tokens);
  }
}
