/** The older single-file script categorize-tokens.py. Its `split_tokens`,
    `remove_dups` and `TagCompleter.complete` are the same code as the
    package's, so `Tokenizer`, `Dedup` and `Completer` model them too. Its own
    `categorize_tokens` collects each answer's tokens into a local list that
    is never stored, so it returns its input unchanged. */
module Legacy {
  import opened Seqs
  import opened Categorize

  /** The script's ten categories. */
  const LegacyDefaultCategories: seq<string> :=
    ["headers", "artist", "style", "subject", "subject_pose",
     "subject_other", "scene", "view", "lighting", "footers"]

  /** A Python `dict` from category name to token list, as its entries in
      insertion order. */
  type Dict = seq<(string, seq<string>)>

  /** `{category: [] for category in DEFAULT_CATEGORIES}`. */
  function EmptyLists(cats: seq<string>): (d: Dict)
    ensures |d| == |cats|
    ensures forall i :: 0 <= i < |d| ==> d[i].0 == cats[i] && d[i].1 == []
  {
    seq(|cats|, i requires 0 <= i < |cats| => (cats[i], []))
  }

  function Keys(d: Dict): seq<string> {
    seq(|d|, i requires 0 <= i < |d| => d[i].0)
  }

  function Values(d: Dict): seq<seq<string>> {
    seq(|d|, i requires 0 <= i < |d| => d[i].1)
  }

  /** The script's category loop. Each answer's `section_tokens` is
      computed (its `else` branch only sees non-empty answers, so it agrees
      with the package's `CategoryTokens`) and then dropped: nothing in the
      loop writes to the dict. */
  function LegacyLoop(keys: seq<string>, rs: seq<Response>, d: Dict): (r: Dict)
    ensures r == d
    decreases |keys|
  {
    if |keys| == 0 then d
    else match Head(rs)
      case Interrupt => d
      case Eof => LegacyLoop(keys[1..], Rest(rs), d)
      case Line(s) =>
        if s == "" then LegacyLoop(keys[1..], Rest(rs), d)
        else
          var sectionTokens := CategoryTokens(s);
          LegacyLoop(keys[1..], Rest(rs), d)
  }

  lemma {:induction false} FlattenEmpty(xss: seq<seq<string>>)
    requires forall i :: 0 <= i < |xss| ==> xss[i] == []
    ensures Flatten(xss) == []
    decreases |xss|
  {
    if |xss| > 0 {
      FlattenEmpty(xss[1..]);
    }
  }

  /** The script's `categorize_tokens(tokens)`: a copy of the input extended
      by every category's list. Whatever the answers, skipped or
      interrupted, the result is the input. */
  function LegacyCategorize(tokens: seq<string>, rs: seq<Response>): (r: seq<string>)
    ensures r == tokens
  {
    var categories := EmptyLists(LegacyDefaultCategories);
    var d := LegacyLoop(Keys(categories), rs, categories);
    FlattenEmpty(Values(d));
    tokens + Flatten(Values(d))
  }
}
