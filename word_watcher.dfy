/**
 * Watched words: per moderation action, the words a post is checked against.
 * The words of an action become one case-insensitive regular expression
 * `\b(w1|w2|...)\b`, in which every word is literal except that `*` matches
 * any run of non-space characters. The pattern string is cached per action
 * under "watched-words-regexp:" + the action's name.
 *
 * The regular-expression engine is a parameter: `matches(m, raw)` says
 * whether matcher `m` finds a match in `raw`.
 */
module WordWatchers {
  import opened Wrappers
  import opened Text

  /** A row of `watched_words`: the word and the name of its action. */
  datatype WatchedWord = WatchedWord(word: string, action: string)

  /** A compiled expression: the pattern source and its IGNORECASE flag. */
  datatype Matcher = Matcher(source: string, ignoreCase: bool)

  /** The `.limit(1000)` of `words_for_action`. */
  const WordLimit := 1000

  const KeyPrefix := "watched-words-regexp:"

  /** The actions the three predicates consult. */
  const RequireApproval := "require_approval"
  const Flag := "flag"
  const Block := "block"

  /** The words of the rows with this action, in table order. */
  function WordsOf(table: seq<WatchedWord>, action: string): (r: seq<string>)
    ensures |r| <= |table|
    ensures forall w :: w in r <==> exists i :: 0 <= i < |table| && table[i].action == action && table[i].word == w
  {
    if |table| == 0 then []
    else
      var rest := WordsOf(table[1..], action);
      assert forall i :: 1 <= i < |table| ==> table[i] == table[1..][i - 1];
      if table[0].action == action then [table[0].word] + rest else rest
  }

  /** `words_for_action`: at most the first thousand words of the action. */
  function WordsForAction(table: seq<WatchedWord>, action: string): (r: seq<string>)
    ensures |r| <= WordLimit
    ensures |r| <= |WordsOf(table, action)| && r == WordsOf(table, action)[..|r|]
    ensures |r| < WordLimit ==> r == WordsOf(table, action)
  {
    var all := WordsOf(table, action);
    if |all| <= WordLimit then all else all[..WordLimit]
  }

  /** `words_for_action_exists?`. */
  predicate WordsForActionExist(table: seq<WatchedWord>, action: string)
  {
    exists i :: 0 <= i < |table| && table[i].action == action
  }

  /** The existence check agrees with the word list: words exist iff the list is non-empty. */
  lemma WordsExistIffListed(table: seq<WatchedWord>, action: string)
    ensures WordsForActionExist(table, action) <==> WordsForAction(table, action) != []
  {
    var all := WordsOf(table, action);
    if WordsForActionExist(table, action) {
      var i :| 0 <= i < |table| && table[i].action == action;
      assert table[i].word in all;
    }
    if all != [] {
      assert all[0] in all;
    }
  }

  /** The characters `Regexp.escape` prefixes with a backslash, the five control characters included. */
  predicate IsRegexpMeta(c: char)
  {
    c in {'[', ']', '{', '}', '(', ')', '|', '-', '*', '.', '\\', '?', '+', '^', '$', ' ', '#',
          '\t', '\U{000C}', '\U{000B}', '\n', '\r'}
  }

  /** The character written after the backslash: the control characters become their letter escapes. */
  function EscapeLetter(c: char): (r: char)
  {
    if c == '\t' then 't'
    else if c == '\U{000C}' then 'f'
    else if c == '\U{000B}' then 'v'
    else if c == '\n' then 'n'
    else if c == '\r' then 'r'
    else c
  }

  /** The character a letter escape `\x` stands for in a pattern. */
  function LetterMeaning(x: char): (r: char)
  {
    if x == 't' then '\t'
    else if x == 'f' then '\U{000C}'
    else if x == 'v' then '\U{000B}'
    else if x == 'n' then '\n'
    else if x == 'r' then '\r'
    else x
  }

  /** `Regexp.escape` of one character. */
  function QuoteChar(c: char): (r: string)
    ensures 1 <= |r| <= 2
    ensures r[0] != '*'
  {
    if IsRegexpMeta(c) then ['\\', EscapeLetter(c)] else [c]
  }

  /** `Regexp.escape(w)`. */
  function Quote(w: string): (r: string)
    ensures r == [] || r[0] != '*'
  {
    if |w| == 0 then "" else QuoteChar(w[0]) + Quote(w[1..])
  }

  /** The literal text a pattern made only of plain characters and backslash escapes stands for. */
  function Literal(p: string): (r: string)
  {
    if |p| == 0 then ""
    else if p[0] == '\\' && |p| >= 2 then [LetterMeaning(p[1])] + Literal(p[2..])
    else [p[0]] + Literal(p[1..])
  }

  /** `Regexp.escape` loses nothing: the escaped word stands for exactly the word. */
  lemma {:induction false} QuoteIsLiteral(w: string)
    ensures Literal(Quote(w)) == w
  {
    if |w| > 0 {
      QuoteIsLiteral(w[1..]);
      QuoteCharLiteral(w[0], Quote(w[1..]));
      assert w == [w[0]] + w[1..];
    }
  }

  /** One escaped character stands for itself, whatever follows it. */
  lemma QuoteCharLiteral(c: char, rest: string)
    ensures Literal(QuoteChar(c) + rest) == [c] + Literal(rest)
  {
    var q := QuoteChar(c);
    if IsRegexpMeta(c) {
      assert (q + rest)[2..] == rest;
      assert LetterMeaning(EscapeLetter(c)) == c;
    } else {
      assert (q + rest)[1..] == rest;
    }
  }

  /** One watched-word character in the pattern: `*` is the wildcard `\S*`, anything else is escaped. */
  function WildcardChar(c: char): (r: string)
  {
    if c == '*' then "\\S*" else QuoteChar(c)
  }

  /** The pattern of one watched word. */
  function Wildcard(w: string): (r: string)
  {
    if |w| == 0 then "" else WildcardChar(w[0]) + Wildcard(w[1..])
  }

  /** A word with no `*` is just escaped. */
  lemma {:induction false} WildcardOfPlainWord(w: string)
    requires '*' !in w
    ensures Wildcard(w) == Quote(w)
  {
    if |w| > 0 {
      assert w[1..] == w[1..] && '*' !in w[1..] by {
        assert forall i :: 0 <= i < |w[1..]| ==> w[1..][i] == w[i + 1];
      }
      WildcardOfPlainWord(w[1..]);
    }
  }

  /** `s.gsub("\\*", '\S*')`: every two-character `\*`, left to right, becomes `\S*`. */
  function ReplaceEscapedStars(s: string): (r: string)
  {
    if |s| < 2 then s
    else if s[0] == '\\' && s[1] == '*' then "\\S*" + ReplaceEscapedStars(s[2..])
    else [s[0]] + ReplaceEscapedStars(s[1..])
  }

  lemma ReplacePlainHead(c: char, t: string)
    requires c != '\\'
    ensures ReplaceEscapedStars([c] + t) == [c] + ReplaceEscapedStars(t)
  {
    if |t| > 0 {
      assert ([c] + t)[1..] == t;
    }
  }

  lemma ReplaceBackslashHead(t: string)
    requires t == [] || t[0] != '*'
    ensures ReplaceEscapedStars(['\\'] + t) == ['\\'] + ReplaceEscapedStars(t)
  {
    if |t| > 0 {
      assert (['\\'] + t)[1..] == t;
    }
  }

  /**
   * Escaping and then replacing every escaped star is the wildcard pattern:
   * the replacement finds exactly the stars of the word, never a backslash
   * that an escape produced.
   */
  lemma {:induction false} EscapeThenReplace(w: string)
    ensures ReplaceEscapedStars(Quote(w)) == Wildcard(w)
  {
    if |w| > 0 {
      EscapeThenReplace(w[1..]);
      QuoteCharReplace(w[0], Quote(w[1..]));
    }
  }

  /** Replacing after one escaped character: a star becomes `\S*`, anything else passes through. */
  lemma QuoteCharReplace(c: char, t: string)
    requires t == [] || t[0] != '*'
    ensures ReplaceEscapedStars(QuoteChar(c) + t) == WildcardChar(c) + ReplaceEscapedStars(t)
  {
    if c == '*' {
      StarReplace(t);
    } else if IsRegexpMeta(c) {
      var x := EscapeLetter(c);
      assert x != '*';
      assert WildcardChar(c) == QuoteChar(c) == ['\\', x];
      EscapedReplace(x, t);
    } else {
      assert WildcardChar(c) == QuoteChar(c) == [c];
      ReplacePlainHead(c, t);
    }
  }

  lemma StarReplace(t: string)
    ensures ReplaceEscapedStars(['\\', '*'] + t) == "\\S*" + ReplaceEscapedStars(t)
  {
    assert (['\\', '*'] + t)[2..] == t;
  }

  lemma EscapedReplace(x: char, t: string)
    requires x != '*' && (t == [] || t[0] != '*')
    ensures ReplaceEscapedStars(['\\', x] + t) == ['\\', x] + ReplaceEscapedStars(t)
  {
    var u := [x] + t;
    assert ['\\', x] + t == ['\\'] + u;
    ReplaceBackslashHead(u);
    if x == '\\' {
      ReplaceBackslashHead(t);
    } else {
      ReplacePlainHead(x, t);
    }
    assert ['\\'] + ([x] + ReplaceEscapedStars(t)) == ['\\', x] + ReplaceEscapedStars(t);
  }

  /** The body of the cache block of `word_matcher_regexp`: no pattern for no words. */
  function PatternFor(words: seq<string>): (r: Option<string>)
    ensures words == [] <==> r.None?
    ensures r.Some? ==> r.value == "\\b(" + Join(WildcardsOf(words), "|") + ")\\b"
  {
    if words == [] then None
    else
      PipelineIsWildcards(words);
      Some("\\b(" + Join(seq(|words|, i requires 0 <= i < |words| => ReplaceEscapedStars(Quote(words[i]))), "|") + ")\\b")
  }

  /** The pattern pieces of a word list, one per word. */
  function WildcardsOf(words: seq<string>): (r: seq<string>)
    ensures |r| == |words|
    ensures forall i :: 0 <= i < |words| ==> r[i] == Wildcard(words[i])
  {
    seq(|words|, i requires 0 <= i < |words| => Wildcard(words[i]))
  }

  /** The escape-then-replace pipeline of the source yields the wildcard pieces. */
  lemma PipelineIsWildcards(words: seq<string>)
    ensures seq(|words|, i requires 0 <= i < |words| => ReplaceEscapedStars(Quote(words[i]))) == WildcardsOf(words)
  {
    forall i | 0 <= i < |words| {
      EscapeThenReplace(words[i]);
    }
  }

  /** `s.present? ? Regexp.new(s, Regexp::IGNORECASE) : nil`. */
  function MatcherOf(s: Option<string>): (r: Option<Matcher>)
    ensures r.Some? <==> s.Some? && !IsBlank(s.value)
    ensures r.Some? ==> r.value == Matcher(s.value, true)
  {
    if s.Some? && !IsBlank(s.value) then Some(Matcher(s.value, true)) else None
  }

  /** A pattern is never blank, so there is a matcher exactly when the action has words. */
  lemma MatcherIffWords(words: seq<string>)
    ensures MatcherOf(PatternFor(words)).Some? <==> words != []
  {
    if words != [] {
      var p := PatternFor(words).value;
      assert p[0] == '\\' && !IsSpace(p[0]);
    }
  }

  /** `word_matcher_regexp_key`. */
  function CacheKey(action: string): (r: string)
    ensures StartsWith(r, KeyPrefix) && r[|KeyPrefix|..] == action
  {
    KeyPrefix + action
  }

  /** Distinct actions have distinct keys. */
  lemma CacheKeyInjective(a: string, b: string)
    ensures CacheKey(a) == CacheKey(b) ==> a == b
  {
    if CacheKey(a) == CacheKey(b) {
      assert a == CacheKey(a)[|KeyPrefix|..];
    }
  }

  /** The pattern of an action as the current table gives it. */
  function CurrentPattern(table: seq<WatchedWord>, action: string): (r: Option<string>)
  {
    PatternFor(WordsForAction(table, action))
  }

  /** Every cached pattern of an action agrees with the table. */
  ghost predicate Coherent(entries: map<string, Option<string>>, table: seq<WatchedWord>)
  {
    forall a :: CacheKey(a) in entries ==> entries[CacheKey(a)] == CurrentPattern(table, a)
  }

  /** The cache (`Discourse.cache`), as far as the watched-word patterns use it. */
  class PatternCache {
    var entries: map<string, Option<string>>

    constructor ()
      ensures entries == map[]
    {
      entries := map[];
    }

    /**
     * `word_matcher_regexp(action)`: the cached pattern string, computed from
     * the table and stored on a miss, as a case-insensitive matcher (none
     * when there is no pattern).
     */
    method WordMatcherRegexp(table: seq<WatchedWord>, action: string) returns (r: Option<Matcher>)
      modifies this
      ensures var key := CacheKey(action);
        && (key in old(entries) ==> entries == old(entries) && r == MatcherOf(old(entries)[key]))
        && (key !in old(entries) ==>
              entries == old(entries)[key := CurrentPattern(table, action)]
              && r == MatcherOf(CurrentPattern(table, action)))
      ensures Coherent(old(entries), table) ==> Coherent(entries, table) && r == MatcherOf(CurrentPattern(table, action))
    {
      var key := CacheKey(action);
      var s: Option<string>;
      if key in entries {
        s := entries[key];
      } else {
        s := PatternFor(WordsForAction(table, action));
        var before := entries;
        entries := entries[key := s];
        forall a | CacheKey(a) in entries && Coherent(before, table)
          ensures entries[CacheKey(a)] == CurrentPattern(table, a)
        {
          CacheKeyInjective(a, action);
        }
      }
      r := MatcherOf(s);
    }

    /** `clear_cache!`: deletes the key of every action. */
    method ClearCache(actions: seq<string>)
      modifies this
      ensures entries == old(entries) - KeysOf(actions)
      ensures forall i :: 0 <= i < |actions| ==> CacheKey(actions[i]) !in entries
    {
      var i := 0;
      while i < |actions|
        invariant 0 <= i <= |actions|
        invariant entries == old(entries) - KeysOf(actions[..i])
      {
        KeysOfSnoc(actions, i);
        entries := entries - {CacheKey(actions[i])};
        i := i + 1;
      }
      assert actions[..i] == actions;
    }
  }

  /** The cache keys of a list of actions. */
  function KeysOf(actions: seq<string>): (r: set<string>)
    ensures forall i :: 0 <= i < |actions| ==> CacheKey(actions[i]) in r
    ensures forall k :: k in r ==> exists i :: 0 <= i < |actions| && k == CacheKey(actions[i])
  {
    set i | 0 <= i < |actions| :: CacheKey(actions[i])
  }

  lemma KeysOfSnoc(actions: seq<string>, i: int)
    requires 0 <= i < |actions|
    ensures KeysOf(actions[..i + 1]) == KeysOf(actions[..i]) + {CacheKey(actions[i])}
  {
    assert actions[..i + 1] == actions[..i] + [actions[i]];
    forall k | k in KeysOf(actions[..i + 1])
      ensures k in KeysOf(actions[..i]) + {CacheKey(actions[i])}
    {
      var j :| 0 <= j < i + 1 && k == CacheKey(actions[..i + 1][j]);
      if j < i {
        assert actions[..i + 1][j] == actions[..i][j];
      }
    }
  }

  /** After `clear_cache!` the cache is coherent with any table, as far as the listed actions go. */
  lemma ClearedIsCoherent(entries: map<string, Option<string>>, actions: seq<string>, table: seq<WatchedWord>)
    requires forall k :: k in entries ==> exists i :: 0 <= i < |actions| && k == CacheKey(actions[i])
    ensures Coherent(entries - KeysOf(actions), table)
  {
    forall a | CacheKey(a) in entries
      ensures CacheKey(a) in KeysOf(actions)
    {
      var i :| 0 <= i < |actions| && CacheKey(a) == CacheKey(actions[i]);
    }
  }

  /** A post being checked against the watched words. */
  class WordWatcher {
    const raw: string

    constructor (raw: string)
      ensures this.raw == raw
    {
      this.raw := raw;
    }

    /** `word_matches_for_action?(action)`: whether the action's matcher finds the raw text; false with no words. */
    method WordMatchesForAction(cache: PatternCache, table: seq<WatchedWord>, action: string,
                                matches: (Matcher, string) -> bool) returns (r: bool)
      modifies cache
      ensures Coherent(old(cache.entries), table) ==> Coherent(cache.entries, table)
      ensures Coherent(old(cache.entries), table) ==>
        var m := MatcherOf(CurrentPattern(table, action));
        r == (m.Some? && matches(m.value, raw))
      ensures CacheKey(action) !in old(cache.entries) ==>
        cache.entries == old(cache.entries)[CacheKey(action) := CurrentPattern(table, action)]
      ensures CacheKey(action) in old(cache.entries) ==> cache.entries == old(cache.entries)
    {
      var m := cache.WordMatcherRegexp(table, action);
      r := if m.Some? then matches(m.value, raw) else false;
    }

    /** `requires_approval?`. */
    method RequiresApproval(cache: PatternCache, table: seq<WatchedWord>, matches: (Matcher, string) -> bool)
      returns (r: bool)
      modifies cache
      ensures Coherent(old(cache.entries), table) ==> Coherent(cache.entries, table)
      ensures Coherent(old(cache.entries), table) ==> r == Matched(table, RequireApproval, raw, matches)
    {
      r := WordMatchesForAction(cache, table, RequireApproval, matches);
    }

    /** `should_flag?`. */
    method ShouldFlag(cache: PatternCache, table: seq<WatchedWord>, matches: (Matcher, string) -> bool)
      returns (r: bool)
      modifies cache
      ensures Coherent(old(cache.entries), table) ==> Coherent(cache.entries, table)
      ensures Coherent(old(cache.entries), table) ==> r == Matched(table, Flag, raw, matches)
    {
      r := WordMatchesForAction(cache, table, Flag, matches);
    }

    /** `should_block?`. */
    method ShouldBlock(cache: PatternCache, table: seq<WatchedWord>, matches: (Matcher, string) -> bool)
      returns (r: bool)
      modifies cache
      ensures Coherent(old(cache.entries), table) ==> Coherent(cache.entries, table)
      ensures Coherent(old(cache.entries), table) ==> r == Matched(table, Block, raw, matches)
    {
      r := WordMatchesForAction(cache, table, Block, matches);
    }
  }

  /** Whether the current words of an action match the text. */
  function Matched(table: seq<WatchedWord>, action: string, raw: string, matches: (Matcher, string) -> bool): (r: bool)
    ensures WordsForAction(table, action) == [] ==> !r
  {
    MatcherIffWords(WordsForAction(table, action));
    var m := MatcherOf(CurrentPattern(table, action));
    m.Some? && matches(m.value, raw)
  }

  /** A predicate consults only its own action: words of other actions do not change its answer. */
  lemma MatchedOnlyOwnAction(table: seq<WatchedWord>, w: WatchedWord, action: string, raw: string,
                             matches: (Matcher, string) -> bool)
    requires w.action != action
    ensures Matched(table + [w], action, raw, matches) == Matched(table, action, raw, matches)
  {
    WordsOfSnoc(table, w, action);
    assert WordsOf(table + [w], action) == WordsOf(table, action);
  }

  lemma {:induction false} WordsOfSnoc(table: seq<WatchedWord>, w: WatchedWord, action: string)
    ensures WordsOf(table + [w], action) == WordsOf(table, action) + (if w.action == action then [w.word] else [])
  {
    if |table| > 0 {
      assert (table + [w])[1..] == table[1..] + [w];
      WordsOfSnoc(table[1..], w, action);
    } else {
      assert table + [w] == [w];
    }
  }
}
