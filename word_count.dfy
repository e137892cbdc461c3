/** The word-frequency aggregator: every comment body is split on single
    spaces, the tokens are tallied case-insensitively under their first-seen
    spelling, the tally is sorted by descending count and cut to ten entries. */
module WordCount {
  import opened Types
  import opened Text
  import opened Compare

  /** How many counted words the breakdown keeps. */
  const MaxWords: nat := 10

  function Min(a: nat, b: nat): nat
  {
    if a < b then a else b
  }

  // ---------------------------------------------------------------------------
  // Tokens

  /** The tokens of all comments, comment after comment, in the order they are visited. */
  function Tokens(comments: seq<UserComment>): seq<string>
  {
    if comments == [] then []
    else Tokens(comments[..|comments| - 1]) + Split(comments[|comments| - 1].body)
  }

  /** The number of tokens, summed comment by comment. */
  function TokenCount(comments: seq<UserComment>): nat
  {
    if comments == [] then 0 else |Split(comments[0].body)| + TokenCount(comments[1..])
  }

  /** The tokens of the first comment come first. */
  lemma {:induction false} TokensCons(comments: seq<UserComment>)
    requires comments != []
    ensures Tokens(comments) == Split(comments[0].body) + Tokens(comments[1..])
  {
    var n := |comments|;
    if n > 1 {
      var init := comments[..n - 1];
      var tail := comments[1..];
      var last := Split(comments[n - 1].body);
      TokensCons(init);
      assert init[1..] == tail[..n - 2];
      assert init[0] == comments[0] && tail[n - 2] == comments[n - 1];
      assert Tokens(tail) == Tokens(init[1..]) + last;
      assert Tokens(comments) == Tokens(init) + last;
      assert Tokens(init) == Split(comments[0].body) + Tokens(init[1..]);
    } else {
      assert comments[..0] == [] && comments[1..] == [];
    }
  }

  /** The token list is as long as the per-comment token counts added up. */
  lemma {:induction false} TokensLength(comments: seq<UserComment>)
    ensures |Tokens(comments)| == TokenCount(comments)
  {
    if comments != [] {
      TokensCons(comments);
      TokensLength(comments[1..]);
    }
  }

  /** Every comment yields at least one token, so only no comments yield no tokens. */
  lemma {:induction false} TokensEmptyIff(comments: seq<UserComment>)
    ensures Tokens(comments) == [] <==> comments == []
  {
  }

  // ---------------------------------------------------------------------------
  // The tally

  /** `w` and `v` are the same word once lower-cased. */
  predicate SameWord(w: string, v: string)
  {
    Lower(w) == Lower(v)
  }

  /** The linear search: the first entry whose word is `word` up to case. */
  function Find(list: seq<SortedAndCountedWord>, word: string): (r: Option<nat>)
    ensures r.Some? ==> r.value < |list| && SameWord(list[r.value].word, word)
    ensures r.Some? ==> forall k :: 0 <= k < r.value ==> !SameWord(list[k].word, word)
    ensures r.None? ==> forall k :: 0 <= k < |list| ==> !SameWord(list[k].word, word)
  {
    if list == [] then None
    else if SameWord(list[0].word, word) then Some(0)
    else match Find(list[1..], word)
      case None => None
      case Some(i) => Some(i + 1)
  }

  /** Counting one token: bump the matching entry, or append a new entry with count 1. */
  function Tally(list: seq<SortedAndCountedWord>, word: string): seq<SortedAndCountedWord>
  {
    match Find(list, word)
    case Some(i) => list[i := SortedAndCountedWord(list[i].word, list[i].count + 1)]
    case None => list + [SortedAndCountedWord(word, 1)]
  }

  /** The tally of a token list, before sorting and truncation. */
  function Counted(tokens: seq<string>): seq<SortedAndCountedWord>
  {
    if tokens == [] then []
    else Tally(Counted(tokens[..|tokens| - 1]), tokens[|tokens| - 1])
  }

  /** How many tokens are `word` up to case. */
  function Matching(tokens: seq<string>, word: string): nat
  {
    if tokens == [] then 0
    else Matching(tokens[..|tokens| - 1], word) + (if SameWord(tokens[|tokens| - 1], word) then 1 else 0)
  }

  /** The distinct lower-cased tokens. */
  ghost function Spellings(tokens: seq<string>): set<string>
  {
    set k | 0 <= k < |tokens| :: Lower(tokens[k])
  }

  /** The lower-cased words of a tally. */
  ghost function Keys(list: seq<SortedAndCountedWord>): set<string>
  {
    set i | 0 <= i < |list| :: Lower(list[i].word)
  }

  /** The sum of the counts. */
  function Sum(list: seq<SortedAndCountedWord>): nat
  {
    if list == [] then 0 else Sum(list[..|list| - 1]) + list[|list| - 1].count
  }

  /** `word` occurs in `tokens` before any other spelling of it. */
  ghost predicate IsFirstSpelling(tokens: seq<string>, word: string)
  {
    exists k :: 0 <= k < |tokens| && tokens[k] == word &&
      forall m :: 0 <= m < k ==> !SameWord(tokens[m], word)
  }

  /** No two entries are the same word up to case. */
  ghost predicate DistinctWords(list: seq<SortedAndCountedWord>)
  {
    forall i, j :: 0 <= i < j < |list| ==> !SameWord(list[i].word, list[j].word)
  }

  /** Each entry counts the tokens that are its word up to case. */
  ghost predicate CountsMatch(list: seq<SortedAndCountedWord>, tokens: seq<string>)
  {
    forall i :: 0 <= i < |list| ==> list[i].count == Matching(tokens, list[i].word)
  }

  /** Each entry keeps the first-seen spelling of its word. */
  ghost predicate FirstSpellings(list: seq<SortedAndCountedWord>, tokens: seq<string>)
  {
    forall i :: 0 <= i < |list| ==> IsFirstSpelling(tokens, list[i].word)
  }

  /** `list` is an exact tally of `tokens`. */
  ghost predicate WellCounted(list: seq<SortedAndCountedWord>, tokens: seq<string>)
  {
    && DistinctWords(list)
    && CountsMatch(list, tokens)
    && FirstSpellings(list, tokens)
    && Keys(list) == Spellings(tokens)
    && |list| == |Spellings(tokens)|
    && Sum(list) == |tokens|
  }

  lemma {:induction false} SumUpdate(list: seq<SortedAndCountedWord>, i: nat, x: SortedAndCountedWord)
    requires i < |list|
    ensures Sum(list[i := x]) + list[i].count == Sum(list) + x.count
  {
    var n := |list|;
    var u := list[i := x];
    if i == n - 1 {
      assert u[..n - 1] == list[..n - 1];
    } else {
      SumUpdate(list[..n - 1], i, x);
      assert u[..n - 1] == list[..n - 1][i := x];
    }
  }

  lemma SumAppend(list: seq<SortedAndCountedWord>, x: SortedAndCountedWord)
    ensures Sum(list + [x]) == Sum(list) + x.count
  {
    assert (list + [x])[..|list|] == list;
  }

  lemma MatchingAppend(tokens: seq<string>, w: string, v: string)
    ensures Matching(tokens + [w], v) == Matching(tokens, v) + (if SameWord(w, v) then 1 else 0)
  {
    assert (tokens + [w])[..|tokens|] == tokens;
  }

  lemma {:induction false} MatchingAbsent(tokens: seq<string>, w: string)
    requires Lower(w) !in Spellings(tokens)
    ensures Matching(tokens, w) == 0
  {
    if tokens != [] {
      var init := tokens[..|tokens| - 1];
      assert Spellings(init) <= Spellings(tokens) by {
        forall x | x in Spellings(init) ensures x in Spellings(tokens) {
          var k :| 0 <= k < |init| && Lower(init[k]) == x;
          assert tokens[k] == init[k];
        }
      }
      MatchingAbsent(init, w);
      assert Lower(tokens[|tokens| - 1]) in Spellings(tokens);
    }
  }

  lemma SpellingsAppend(tokens: seq<string>, w: string)
    ensures Spellings(tokens + [w]) == Spellings(tokens) + {Lower(w)}
  {
    var t := tokens + [w];
    forall x | x in Spellings(t) ensures x in Spellings(tokens) + {Lower(w)} {
      var k :| 0 <= k < |t| && Lower(t[k]) == x;
      if k < |tokens| {
        assert t[k] == tokens[k];
      }
    }
    forall x | x in Spellings(tokens) ensures x in Spellings(t) {
      var k :| 0 <= k < |tokens| && Lower(tokens[k]) == x;
      assert t[k] == tokens[k];
    }
    assert Lower(t[|tokens|]) in Spellings(t);
  }

  lemma FirstSpellingAppend(tokens: seq<string>, w: string, v: string)
    requires IsFirstSpelling(tokens, v)
    ensures IsFirstSpelling(tokens + [w], v)
  {
    var t := tokens + [w];
    var k :| 0 <= k < |tokens| && tokens[k] == v &&
      forall m :: 0 <= m < k ==> !SameWord(tokens[m], v);
    assert t[k] == v;
    assert forall m :: 0 <= m < k ==> t[m] == tokens[m];
  }

  /** The entry Find returns is the only one that is `w` up to case. */
  lemma FoundIsOnly(list: seq<SortedAndCountedWord>, w: string, i: nat, j: nat)
    requires DistinctWords(list)
    requires i < |list| && SameWord(list[i].word, w)
    requires j < |list| && j != i
    ensures !SameWord(list[j].word, w)
  {
    if j < i {
      assert !SameWord(list[j].word, list[i].word);
    } else {
      assert !SameWord(list[i].word, list[j].word);
    }
  }

  /** The tally after counting `w` again at entry `i`. */
  function Bumped(list: seq<SortedAndCountedWord>, i: nat): seq<SortedAndCountedWord>
    requires i < |list|
  {
    list[i := SortedAndCountedWord(list[i].word, list[i].count + 1)]
  }

  lemma BumpedCounts(list: seq<SortedAndCountedWord>, tokens: seq<string>, w: string, i: nat)
    requires DistinctWords(list) && CountsMatch(list, tokens)
    requires i < |list| && SameWord(list[i].word, w)
    ensures CountsMatch(Bumped(list, i), tokens + [w])
  {
    var u := Bumped(list, i);
    forall j | 0 <= j < |u| ensures u[j].count == Matching(tokens + [w], u[j].word) {
      MatchingAppend(tokens, w, list[j].word);
      if j != i {
        FoundIsOnly(list, w, i, j);
        assert u[j] == list[j];
      }
    }
  }

  lemma BumpedFirst(list: seq<SortedAndCountedWord>, tokens: seq<string>, w: string, i: nat)
    requires FirstSpellings(list, tokens)
    requires i < |list|
    ensures FirstSpellings(Bumped(list, i), tokens + [w])
  {
    var u := Bumped(list, i);
    forall j | 0 <= j < |u| ensures IsFirstSpelling(tokens + [w], u[j].word) {
      FirstSpellingAppend(tokens, w, list[j].word);
    }
  }

  lemma BumpedKeys(list: seq<SortedAndCountedWord>, i: nat)
    requires i < |list|
    ensures Keys(Bumped(list, i)) == Keys(list)
    ensures DistinctWords(list) ==> DistinctWords(Bumped(list, i))
  {
    var u := Bumped(list, i);
    assert forall j :: 0 <= j < |u| ==> u[j].word == list[j].word;
    forall y | y in Keys(u) ensures y in Keys(list) {
      var j :| 0 <= j < |u| && Lower(u[j].word) == y;
    }
    forall y | y in Keys(list) ensures y in Keys(u) {
      var j :| 0 <= j < |list| && Lower(list[j].word) == y;
      assert Lower(u[j].word) == y;
    }
  }

  /** Bumping the entry that matches `w` keeps the tally exact. */
  lemma BumpedWellCounted(list: seq<SortedAndCountedWord>, tokens: seq<string>, w: string, i: nat)
    requires WellCounted(list, tokens)
    requires i < |list| && SameWord(list[i].word, w)
    ensures WellCounted(Bumped(list, i), tokens + [w])
  {
    var u := Bumped(list, i);
    var t := tokens + [w];
    assert DistinctWords(u) && Keys(u) == Keys(list) by {
      BumpedKeys(list, i);
    }
    assert CountsMatch(u, t) by {
      BumpedCounts(list, tokens, w, i);
    }
    assert FirstSpellings(u, t) by {
      BumpedFirst(list, tokens, w, i);
    }
    assert Spellings(t) == Spellings(tokens) by {
      SpellingsAppend(tokens, w);
      assert Lower(w) in Keys(list) by { assert Lower(list[i].word) == Lower(w); }
    }
    assert Sum(u) == |t| by {
      SumUpdate(list, i, SortedAndCountedWord(list[i].word, list[i].count + 1));
    }
  }

  /** Counting a word already in the tally keeps the tally exact. */
  lemma TallyFound(list: seq<SortedAndCountedWord>, tokens: seq<string>, w: string, i: nat)
    requires WellCounted(list, tokens)
    requires Find(list, w) == Some(i)
    ensures WellCounted(Tally(list, w), tokens + [w])
  {
    assert Tally(list, w) == Bumped(list, i);
    BumpedWellCounted(list, tokens, w, i);
  }

  /** `w` is in no entry of the tally. */
  ghost predicate Absent(list: seq<SortedAndCountedWord>, w: string)
  {
    forall j :: 0 <= j < |list| ==> !SameWord(list[j].word, w)
  }

  lemma AppendedDistinct(list: seq<SortedAndCountedWord>, w: string)
    requires DistinctWords(list) && Absent(list, w)
    ensures DistinctWords(list + [SortedAndCountedWord(w, 1)])
  {
    var u := list + [SortedAndCountedWord(w, 1)];
    assert forall j :: 0 <= j < |list| ==> u[j] == list[j];
  }

  lemma AppendedCounts(list: seq<SortedAndCountedWord>, tokens: seq<string>, w: string)
    requires CountsMatch(list, tokens) && Absent(list, w)
    requires Lower(w) !in Spellings(tokens)
    ensures CountsMatch(list + [SortedAndCountedWord(w, 1)], tokens + [w])
  {
    var u := list + [SortedAndCountedWord(w, 1)];
    forall j | 0 <= j < |u| ensures u[j].count == Matching(tokens + [w], u[j].word) {
      MatchingAppend(tokens, w, u[j].word);
      if j == |list| {
        MatchingAbsent(tokens, w);
      } else {
        assert u[j] == list[j];
      }
    }
  }

  lemma AppendedFirst(list: seq<SortedAndCountedWord>, tokens: seq<string>, w: string)
    requires FirstSpellings(list, tokens)
    requires Lower(w) !in Spellings(tokens)
    ensures FirstSpellings(list + [SortedAndCountedWord(w, 1)], tokens + [w])
  {
    var t := tokens + [w];
    var u := list + [SortedAndCountedWord(w, 1)];
    forall j | 0 <= j < |u| ensures IsFirstSpelling(t, u[j].word) {
      if j < |list| {
        assert u[j] == list[j];
        FirstSpellingAppend(tokens, w, list[j].word);
      } else {
        assert t[|tokens|] == w;
        forall m | 0 <= m < |tokens| ensures !SameWord(t[m], w) {
          assert t[m] == tokens[m];
          assert Lower(tokens[m]) in Spellings(tokens);
        }
      }
    }
  }

  lemma AppendedKeys(list: seq<SortedAndCountedWord>, w: string)
    ensures Keys(list + [SortedAndCountedWord(w, 1)]) == Keys(list) + {Lower(w)}
  {
    var u := list + [SortedAndCountedWord(w, 1)];
    forall y | y in Keys(u) ensures y in Keys(list) + {Lower(w)} {
      var j :| 0 <= j < |u| && Lower(u[j].word) == y;
      if j < |list| {
        assert u[j] == list[j];
      }
    }
    forall y | y in Keys(list) ensures y in Keys(u) {
      var j :| 0 <= j < |list| && Lower(list[j].word) == y;
      assert u[j] == list[j];
    }
    assert Lower(u[|list|].word) in Keys(u);
  }

  /** Appending a new entry for an unseen `w` keeps the tally exact. */
  lemma AppendedWellCounted(list: seq<SortedAndCountedWord>, tokens: seq<string>, w: string)
    requires WellCounted(list, tokens)
    requires Absent(list, w)
    ensures WellCounted(list + [SortedAndCountedWord(w, 1)], tokens + [w])
  {
    var x := SortedAndCountedWord(w, 1);
    var u := list + [x];
    var t := tokens + [w];
    assert Lower(w) !in Spellings(tokens) by {
      assert Lower(w) !in Keys(list);
    }
    assert DistinctWords(u) by {
      AppendedDistinct(list, w);
    }
    assert CountsMatch(u, t) by {
      AppendedCounts(list, tokens, w);
    }
    assert FirstSpellings(u, t) by {
      AppendedFirst(list, tokens, w);
    }
    assert Keys(u) == Spellings(t) && |u| == |Spellings(t)| by {
      AppendedKeys(list, w);
      SpellingsAppend(tokens, w);
    }
    assert Sum(u) == |t| by {
      SumAppend(list, x);
    }
  }

  /** Counting a word not yet in the tally keeps the tally exact. */
  lemma TallyNew(list: seq<SortedAndCountedWord>, tokens: seq<string>, w: string)
    requires WellCounted(list, tokens)
    requires Find(list, w) == None
    ensures WellCounted(Tally(list, w), tokens + [w])
  {
    assert Tally(list, w) == list + [SortedAndCountedWord(w, 1)];
    AppendedWellCounted(list, tokens, w);
  }

  lemma {:induction false} CountedWellCounted(tokens: seq<string>)
    ensures WellCounted(Counted(tokens), tokens)
  {
    if tokens == [] {
      assert Spellings(tokens) == {};
      assert Keys([]) == {};
    } else {
      var init := tokens[..|tokens| - 1];
      var w := tokens[|tokens| - 1];
      CountedWellCounted(init);
      assert tokens == init + [w];
      match Find(Counted(init), w)
      case Some(i) => TallyFound(Counted(init), init, w, i);
      case None => TallyNew(Counted(init), init, w);
    }
  }

  /** Before sorting and truncation the tally is exact: one entry per word up to
      case, in its first-seen spelling, counting that word's tokens, with every
      token matched by exactly one entry and the counts adding up to the number
      of tokens. */
  lemma CountedIsExact(tokens: seq<string>)
    ensures forall i, j :: 0 <= i < j < |Counted(tokens)| ==>
      !SameWord(Counted(tokens)[i].word, Counted(tokens)[j].word)
    ensures forall i :: 0 <= i < |Counted(tokens)| ==>
      Counted(tokens)[i].count == Matching(tokens, Counted(tokens)[i].word)
    ensures forall i :: 0 <= i < |Counted(tokens)| ==> IsFirstSpelling(tokens, Counted(tokens)[i].word)
    ensures forall k :: 0 <= k < |tokens| ==> Find(Counted(tokens), tokens[k]).Some?
    ensures |Counted(tokens)| == |Spellings(tokens)|
    ensures Sum(Counted(tokens)) == |tokens|
  {
    CountedWellCounted(tokens);
    EveryTokenFound(Counted(tokens), tokens);
  }

  /** A tally whose words cover the tokens' spellings has an entry for every token. */
  lemma EveryTokenFound(list: seq<SortedAndCountedWord>, tokens: seq<string>)
    requires Keys(list) == Spellings(tokens)
    ensures forall k :: 0 <= k < |tokens| ==> Find(list, tokens[k]).Some?
  {
    forall k | 0 <= k < |tokens| ensures Find(list, tokens[k]).Some? {
      assert Lower(tokens[k]) in Spellings(tokens);
      var i :| 0 <= i < |list| && Lower(list[i].word) == Lower(tokens[k]);
    }
  }

  // ---------------------------------------------------------------------------
  // Sorting and truncation

  /** Inserting into a list sorted by CompareValue on the count, ahead of the
      first entry whose count is not larger. */
  function Insert(x: SortedAndCountedWord, s: seq<SortedAndCountedWord>): (r: seq<SortedAndCountedWord>)
    requires SortedBy(s, Count)
    ensures multiset(r) == multiset(s) + multiset{x}
    ensures SortedBy(r, Count)
  {
    if s == [] then [x]
    else if CompareValue(x, s[0], Count) <= 0 then
      ConsSorted(x, s);
      [x] + s
    else
      SortedTail(s);
      var rest := Insert(x, s[1..]);
      InsertHead(x, s, rest);
      [s[0]] + rest
  }

  lemma SortedTail(s: seq<SortedAndCountedWord>)
    requires s != [] && SortedBy(s, Count)
    ensures SortedBy(s[1..], Count)
  {
    var t := s[1..];
    forall i, j | 0 <= i < j < |t| ensures CompareValue(t[i], t[j], Count) <= 0 {
      assert t[i] == s[i + 1] && t[j] == s[j + 1];
    }
  }

  /** Putting an entry with a count at least the first one's in front keeps the list sorted. */
  lemma ConsSorted(x: SortedAndCountedWord, s: seq<SortedAndCountedWord>)
    requires s != [] && SortedBy(s, Count)
    requires CompareValue(x, s[0], Count) <= 0
    ensures SortedBy([x] + s, Count)
  {
    var r := [x] + s;
    forall i, j | 0 <= i < j < |r| ensures CompareValue(r[i], r[j], Count) <= 0 {
      if i == 0 {
        assert r[j] == s[j - 1];
        if j > 1 {
          CompareValueTransitive(x, s[0], s[j - 1], Count);
        }
      } else {
        assert r[i] == s[i - 1] && r[j] == s[j - 1];
      }
    }
  }

  /** The step of Insert that passes over the first entry. */
  lemma InsertHead(x: SortedAndCountedWord, s: seq<SortedAndCountedWord>, rest: seq<SortedAndCountedWord>)
    requires s != [] && SortedBy(s, Count)
    requires CompareValue(x, s[0], Count) > 0
    requires multiset(rest) == multiset(s[1..]) + multiset{x}
    requires SortedBy(rest, Count)
    ensures multiset([s[0]] + rest) == multiset(s) + multiset{x}
    ensures SortedBy([s[0]] + rest, Count)
  {
    assert s == [s[0]] + s[1..];
    var r := [s[0]] + rest;
    forall k | 0 <= k < |rest| ensures CompareValue(s[0], rest[k], Count) <= 0 {
      var y := rest[k];
      assert y in multiset(rest);
      if y != x {
        assert y in multiset(s[1..]);
        var m :| 0 <= m < |s[1..]| && s[1..][m] == y;
        assert s[m + 1] == y;
      }
    }
    forall i, j | 0 <= i < j < |r| ensures CompareValue(r[i], r[j], Count) <= 0 {
      if i == 0 {
        assert r[j] == rest[j - 1];
      } else {
        assert r[i] == rest[i - 1] && r[j] == rest[j - 1];
      }
    }
  }

  /** `Array.prototype.sort` with CompareValue on the count: a permutation that
      is non-increasing in the count. */
  function SortByCount(s: seq<SortedAndCountedWord>): (r: seq<SortedAndCountedWord>)
    ensures multiset(r) == multiset(s)
    ensures SortedBy(r, Count)
  {
    if s == [] then []
    else
      assert s == [s[0]] + s[1..];
      Insert(s[0], SortByCount(s[1..]))
  }

  /** The breakdown `wordFrequency` returns; reading the highest count fails
      when the sorted list is empty. */
  function Frequency(comments: seq<UserComment>): Result<WordFrequency>
  {
    var tokens := Tokens(comments);
    var sorted := SortByCount(Counted(tokens));
    var top := sorted[..Min(MaxWords, |sorted|)];
    if top == [] then Failure(TypeError)
    else Success(WordFrequency(|tokens|, top, top[0].count))
  }

  // ---------------------------------------------------------------------------
  // What the breakdown promises

  /** Sorting keeps the entries and their number. */
  lemma SortKeepsEntries(s: seq<SortedAndCountedWord>)
    ensures |SortByCount(s)| == |s|
    ensures forall e :: e in SortByCount(s) <==> e in s
  {
    var r := SortByCount(s);
    assert |multiset(r)| == |multiset(s)|;
    forall e ensures e in r <==> e in s {
      assert e in r <==> e in multiset(r);
      assert e in s <==> e in multiset(s);
    }
  }

  /** An empty tally has an empty token list behind it. */
  lemma {:induction false} CountedEmptyIff(tokens: seq<string>)
    ensures Counted(tokens) == [] <==> tokens == []
  {
    CountedIsExact(tokens);
    if tokens != [] {
      assert Lower(tokens[0]) in Spellings(tokens);
    }
  }

  /** The breakdown fails (the highest count reads an entry that is not there)
      exactly when there are no comments: every comment, even an empty one,
      yields at least one token. */
  lemma FrequencyFailsIffNoComments(comments: seq<UserComment>)
    ensures Frequency(comments).Failure? <==> comments == []
  {
    var tokens := Tokens(comments);
    TokensEmptyIff(comments);
    CountedEmptyIff(tokens);
    SortKeepsEntries(Counted(tokens));
  }

  /** The total is the number of pieces `split(' ')` yields, summed over the
      comments, empty pieces included. */
  lemma FrequencyTotal(comments: seq<UserComment>)
    ensures Frequency(comments).Success? ==>
      Frequency(comments).value.totalWordCount == TokenCount(comments)
  {
    TokensLength(comments);
  }

  /** The breakdown keeps ten entries, or all of them when there are fewer
      distinct words up to case. */
  lemma FrequencySize(comments: seq<UserComment>)
    ensures Frequency(comments).Success? ==>
      |Frequency(comments).value.sortedAndCountedWords| == Min(MaxWords, |Spellings(Tokens(comments))|) &&
      |Frequency(comments).value.sortedAndCountedWords| <= MaxWords
  {
    CountedIsExact(Tokens(comments));
    SortKeepsEntries(Counted(Tokens(comments)));
  }

  /** The first `n` entries of a sorted list: taken from it, in
      non-increasing order, none smaller than an entry left out, the first
      one the largest. */
  lemma TopOfSorted(all: seq<SortedAndCountedWord>, sorted: seq<SortedAndCountedWord>, n: nat)
    requires SortedBy(sorted, Count)
    requires forall e :: e in sorted <==> e in all
    requires n <= |sorted|
    ensures forall k :: 0 <= k < n ==> sorted[..n][k] in all
    ensures forall i, j :: 0 <= i < j < n ==> sorted[..n][i].count >= sorted[..n][j].count
    ensures forall e, k :: e in all && e !in sorted[..n] && 0 <= k < n ==> e.count <= sorted[..n][k].count
    ensures n > 0 ==> forall e :: e in all ==> e.count <= sorted[0].count
  {
    var top := sorted[..n];
    forall i, j | 0 <= i < j < n ensures top[i].count >= top[j].count {
      assert CompareValue(sorted[i], sorted[j], Count) <= 0;
    }
    forall e, k | e in all && e !in top && 0 <= k < n ensures e.count <= top[k].count {
      var p :| 0 <= p < |sorted| && sorted[p] == e;
      assert CompareValue(sorted[k], sorted[p], Count) <= 0;
    }
    forall e | e in all && n > 0 ensures e.count <= sorted[0].count {
      var p :| 0 <= p < |sorted| && sorted[p] == e;
      if p > 0 {
        assert CompareValue(sorted[0], sorted[p], Count) <= 0;
      }
    }
    forall k | 0 <= k < n ensures top[k] in all {
      assert top[k] == sorted[k];
    }
  }

  /** The kept entries come from the tally, in non-increasing order, and
      every entry cut off has a count no larger than any kept one. */
  lemma FrequencyRanking(comments: seq<UserComment>)
    ensures var r := Frequency(comments);
      r.Success? ==>
        var words := r.value.sortedAndCountedWords;
        && (forall k :: 0 <= k < |words| ==> words[k] in Counted(Tokens(comments)))
        && (forall i, j :: 0 <= i < j < |words| ==> words[i].count >= words[j].count)
        && (forall e, k :: e in Counted(Tokens(comments)) && e !in words && 0 <= k < |words| ==>
              e.count <= words[k].count)
  {
    var all := Counted(Tokens(comments));
    var sorted := SortByCount(all);
    SortKeepsEntries(all);
    TopOfSorted(all, sorted, Min(MaxWords, |sorted|));
  }

  /** The highest count is the first kept entry's count, and no entry of the
      tally has a larger one. */
  lemma FrequencyHighest(comments: seq<UserComment>)
    ensures var r := Frequency(comments);
      r.Success? ==>
        && r.value.highestCount == r.value.sortedAndCountedWords[0].count
        && (forall e :: e in Counted(Tokens(comments)) ==> e.count <= r.value.highestCount)
  {
    var all := Counted(Tokens(comments));
    var sorted := SortByCount(all);
    SortKeepsEntries(all);
    TopOfSorted(all, sorted, Min(MaxWords, |sorted|));
  }

  // ---------------------------------------------------------------------------
  // The aggregator

  /** One more comment adds its tokens at the end. */
  lemma TokensSnoc(comments: seq<UserComment>, c: nat)
    requires c < |comments|
    ensures Tokens(comments[..c + 1]) == Tokens(comments[..c]) + Split(comments[c].body)
  {
    assert comments[..c + 1][..c] == comments[..c];
  }

  /** One more token is tallied at the end. */
  lemma CountedSnoc(before: seq<string>, words: seq<string>, w: nat)
    requires w < |words|
    ensures Counted(before + words[..w + 1]) == Tally(Counted(before + words[..w]), words[w])
  {
    assert (before + words[..w + 1])[..|before| + w] == before + words[..w];
  }

  /** The tally once the search has stopped at the first match `index`. */
  lemma TallyWhenFound(list: seq<SortedAndCountedWord>, word: string, index: nat)
    requires index < |list| && SameWord(list[index].word, word)
    requires forall k :: 0 <= k < index ==> !SameWord(list[k].word, word)
    ensures Tally(list, word) == list[index := SortedAndCountedWord(list[index].word, list[index].count + 1)]
  {
    assert Find(list, word) == Some(index);
  }

  /** The tally once the search has found no match. */
  lemma TallyWhenNew(list: seq<SortedAndCountedWord>, word: string)
    requires forall k :: 0 <= k < |list| ==> !SameWord(list[k].word, word)
    ensures Tally(list, word) == list + [SortedAndCountedWord(word, 1)]
  {
  }

  /** The callback run for each token: bump the running total, search the
      tally for the token up to case, stopping at the first match, then
      increment that entry or push a new one. */
  method CountWord(counted: seq<SortedAndCountedWord>, totalWordCount: nat, word: string)
    returns (counted': seq<SortedAndCountedWord>, totalWordCount': nat)
    ensures counted' == Tally(counted, word)
    ensures totalWordCount' == totalWordCount + 1
  {
    totalWordCount' := totalWordCount + 1;
    var found := false;
    var index := 0;
    var i := 0;
    while i < |counted|
      invariant 0 <= i <= |counted|
      invariant forall k :: 0 <= k < i ==> !SameWord(counted[k].word, word)
    {
      if Lower(counted[i].word) == Lower(word) {
        found := true;
        index := i;
        break;
      }
      i := i + 1;
    }
    if found {
      TallyWhenFound(counted, word, index);
      counted' := counted[index := SortedAndCountedWord(counted[index].word, counted[index].count + 1)];
    } else {
      TallyWhenNew(counted, word);
      counted' := counted + [SortedAndCountedWord(word, 1)];
    }
  }

  /** `wordFrequency(comments)`: for each comment, for each token of its body,
      the callback above; then the sort and the cut to ten. */
  method ComputeWordFrequency(comments: seq<UserComment>) returns (r: Result<WordFrequency>)
    ensures r == Frequency(comments)
  {
    var counted: seq<SortedAndCountedWord> := [];
    var totalWordCount: nat := 0;
    var c := 0;
    while c < |comments|
      invariant 0 <= c <= |comments|
      invariant counted == Counted(Tokens(comments[..c]))
      invariant totalWordCount == |Tokens(comments[..c])|
    {
      var words := Split(comments[c].body);
      ghost var before := Tokens(comments[..c]);
      var w := 0;
      assert before + words[..w] == before;
      while w < |words|
        invariant 0 <= w <= |words|
        invariant counted == Counted(before + words[..w])
        invariant totalWordCount == |before| + w
      {
        CountedSnoc(before, words, w);
        counted, totalWordCount := CountWord(counted, totalWordCount, words[w]);
        w := w + 1;
      }
      assert words[..w] == words;
      TokensSnoc(comments, c);
      c := c + 1;
    }
    assert comments[..c] == comments;
    var sorted := SortByCount(counted);
    var top := sorted[..Min(MaxWords, |sorted|)];
    if top == [] {
      r := Failure(TypeError);
    } else {
      r := Success(WordFrequency(totalWordCount, top, top[0].count));
    }
  }
}
