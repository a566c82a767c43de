/** The computations the menu commands of the movie application perform on
    a snapshot of the collection: the two sorted listings, the filter, the
    best and worst movies of the statistics, the search with its exact,
    similar and unmatched groups, the random pick, the HTML list items of the
    generated website, and the input loops that keep asking until a rating or
    a set of filter bounds can be used. Printing and prompting are not part
    of the model: each command's result is what it would print. */
module Movies {
  import opened Wrappers
  import opened Text
  import opened Sorting
  import opened Snapshots

  // ---------------------------------------------------------------------
  // Sorted listings

  /** `(rating, title)`, the key of "Movies sorted by rating". */
  function RatingKey(e: Entry): Key
  {
    Key(e.info.rating, e.title)
  }

  /** `(year, title)`, the key of "Movies sorted by year". */
  function YearKey(e: Entry): Key
  {
    Key(e.info.year as real, e.title)
  }

  /** `sorted(movies.items(), key=(rating, title), reverse=True)`. */
  function SortedByRating(s: Snapshot): (r: Snapshot)
    ensures |r| == |s| && multiset(r) == multiset(s)
    ensures SortedBy(r, RatingKey, true)
  {
    SortSorted(s, RatingKey, true);
    Sort(s, RatingKey, true)
  }

  /** `sorted(movies.items(), key=(year, title), reverse=newestFirst)`. */
  function SortedByYear(s: Snapshot, newestFirst: bool): (r: Snapshot)
    ensures |r| == |s| && multiset(r) == multiset(s)
    ensures SortedBy(r, YearKey, newestFirst)
  {
    SortSorted(s, YearKey, newestFirst);
    Sort(s, YearKey, newestFirst)
  }

  /** The answer to "see the newest movie first?" reverses the order exactly
      when it is 'y' or 'yes' in any mix of cases. */
  function NewestFirst(answer: string): (r: bool)
    ensures r <==> (
      (answer == "y" || answer == "Y") ||
      (|answer| == 3 && answer[0] in "yY" && answer[1] in "eE" && answer[2] in "sS"))
  {
    var a := Lower(answer);
    assert |answer| == 1 ==> a == [LowerChar(answer[0])];
    assert |answer| == 3 ==> a == [LowerChar(answer[0]), LowerChar(answer[1]), LowerChar(answer[2])];
    a == "y" || a == "yes"
  }

  /** The key function is one-to-one on a keyed snapshot, because the title is part of the key. */
  lemma KeysDistinct(s: Snapshot, key: Entry -> Key)
    requires Keyed(s)
    requires forall e :: key(e).title == e.title
    ensures forall x, y :: x in s && y in s && key(x) == key(y) ==> x == y
  {
    forall x, y | x in s && y in s && key(x) == key(y)
      ensures x == y
    {
      var i :| 0 <= i < |s| && s[i] == x;
      var j :| 0 <= j < |s| && s[j] == y;
      assert s[i].title == s[j].title;
    }
  }

  function EntryTitle(e: Entry): string
  {
    e.title
  }

  /** A rearrangement of a keyed snapshot is keyed. */
  lemma PermutationKeyed(s: Snapshot, r: Snapshot)
    requires Keyed(s) && multiset(r) == multiset(s)
    ensures Keyed(r)
  {
    assert DistinctBy(s, EntryTitle);
    PermutationDistinct(s, r, EntryTitle);
    assert DistinctBy(r, EntryTitle);
  }

  /** In the rating listing a higher rating comes first, and of two movies
      with the same rating the alphabetically later title comes first. */
  lemma SortedByRatingOrder(s: Snapshot, i: int, j: int)
    requires Keyed(s)
    requires 0 <= i < j < |s|
    ensures var r := SortedByRating(s);
      r[i].info.rating > r[j].info.rating
      || (r[i].info.rating == r[j].info.rating && LexLess(r[j].title, r[i].title))
  {
    var r := SortedByRating(s);
    PermutationKeyed(s, r);
    assert Before(RatingKey(r[i]), RatingKey(r[j]), true);
    KeyTotal(RatingKey(r[i]), RatingKey(r[j]));
  }

  /** Newest first orders by descending year and then descending title;
      otherwise both ascend. */
  lemma SortedByYearOrder(s: Snapshot, newestFirst: bool, i: int, j: int)
    requires Keyed(s)
    requires 0 <= i < j < |s|
    ensures var r := SortedByYear(s, newestFirst);
      if newestFirst then
        r[i].info.year > r[j].info.year
        || (r[i].info.year == r[j].info.year && LexLess(r[j].title, r[i].title))
      else
        r[i].info.year < r[j].info.year
        || (r[i].info.year == r[j].info.year && LexLess(r[i].title, r[j].title))
  {
    var r := SortedByYear(s, newestFirst);
    PermutationKeyed(s, r);
    assert Before(YearKey(r[i]), YearKey(r[j]), newestFirst);
    KeyTotal(YearKey(r[i]), YearKey(r[j]));
  }

  /** The rating listing is the only rearrangement of the snapshot ordered by
      the key: re-running it on the same data gives the same order. */
  lemma SortedByRatingUnique(s: Snapshot, r: Snapshot)
    requires Keyed(s)
    requires multiset(r) == multiset(s) && SortedBy(r, RatingKey, true)
    ensures r == SortedByRating(s)
  {
    var o := SortedByRating(s);
    KeysDistinct(s, RatingKey);
    forall x | x in r
      ensures x in s
    {
      assert x in multiset(r);
    }
    SortedUnique(r, o, RatingKey, true);
  }

  lemma SortedByYearUnique(s: Snapshot, newestFirst: bool, r: Snapshot)
    requires Keyed(s)
    requires multiset(r) == multiset(s) && SortedBy(r, YearKey, newestFirst)
    ensures r == SortedByYear(s, newestFirst)
  {
    var o := SortedByYear(s, newestFirst);
    KeysDistinct(s, YearKey);
    forall x | x in r
      ensures x in s
    {
      assert x in multiset(r);
    }
    SortedUnique(r, o, YearKey, newestFirst);
  }

  // ---------------------------------------------------------------------
  // Filter

  /** Inclusive bounds: minimum rating, first year, last year. */
  datatype Bounds = Bounds(minRating: real, startYear: int, endYear: int)

  predicate Passes(e: Entry, b: Bounds)
  {
    e.info.rating >= b.minRating && b.startYear <= e.info.year <= b.endYear
  }

  /** One answer typed at a prompt: left blank, a number, or text that does
      not parse as a number. */
  datatype Field<T> = Blank | Given(value: T) | Malformed

  /** The three answers of one round of the filter prompts. */
  datatype FilterAnswers = FilterAnswers(minRating: Field<real>, startYear: Field<int>, endYear: Field<int>)

  /** The bounds a round of answers gives: blanks take the defaults 0, 1000
      and 3000; one unparsable answer makes the whole round invalid. */
  function BoundsOf(a: FilterAnswers): Option<Bounds>
  {
    if a.minRating.Malformed? || a.startYear.Malformed? || a.endYear.Malformed? then None
    else Some(Bounds(
      if a.minRating.Given? then a.minRating.value else 0.0,
      if a.startYear.Given? then a.startYear.value else 1000,
      if a.endYear.Given? then a.endYear.value else 3000))
  }

  /** All-blank answers filter on rating at least 0 and a year from 1000 to
      3000: a movie outside those years is not shown. */
  lemma BlankAnswersUseDefaults(e: Entry)
    ensures BoundsOf(FilterAnswers(Blank, Blank, Blank)) == Some(Bounds(0.0, 1000, 3000))
    ensures Passes(e, Bounds(0.0, 1000, 3000)) <==> e.info.rating >= 0.0 && 1000 <= e.info.year <= 3000
  {
  }

  /** The filter's `while not valid` loop: rounds of answers are read until
      one parses. `None` means the answers ran out before that. */
  method ReadFilterBounds(rounds: seq<FilterAnswers>) returns (r: Option<Bounds>)
    ensures r.None? <==> forall i :: 0 <= i < |rounds| ==> BoundsOf(rounds[i]).None?
    ensures r.Some? ==> exists i :: (0 <= i < |rounds| && BoundsOf(rounds[i]) == r
      && forall j :: 0 <= j < i ==> BoundsOf(rounds[j]).None?)
  {
    var i := 0;
    r := None;
    while r.None? && i < |rounds|
      invariant 0 <= i <= |rounds|
      invariant r.None? ==> forall j :: 0 <= j < i ==> BoundsOf(rounds[j]).None?
      invariant r.Some? ==> (0 < i && BoundsOf(rounds[i - 1]) == r
        && forall j :: 0 <= j < i - 1 ==> BoundsOf(rounds[j]).None?)
    {
      r := BoundsOf(rounds[i]);
      i := i + 1;
    }
  }

  /** The movies the filter keeps, in snapshot order, values unchanged. */
  function Filtered(s: Snapshot, b: Bounds): Snapshot
  {
    Where(s, (e: Entry) => Passes(e, b))
  }

  /** The filter loop of "Filter movies". */
  method FilterMovies(s: Snapshot, b: Bounds) returns (r: Snapshot)
    ensures r == Filtered(s, b)
  {
    r := [];
    for i := 0 to |s|
      invariant r == Where(s[..i], (e: Entry) => Passes(e, b))
    {
      assert s[..i + 1][..i] == s[..i];
      if s[i].info.rating >= b.minRating && b.startYear <= s[i].info.year <= b.endYear {
        r := r + [s[i]];
      }
    }
    assert s[..|s|] == s;
  }

  /** A movie is shown exactly when its rating reaches the minimum and its
      year lies between the two bounds, both inclusive; its title appears
      once and its value is the snapshot's. */
  lemma FilteredMembership(s: Snapshot, b: Bounds, e: Entry)
    requires Keyed(s)
    ensures e in Filtered(s, b) <==>
      e in s && e.info.rating >= b.minRating && b.startYear <= e.info.year && e.info.year <= b.endYear
    ensures Keyed(Filtered(s, b))
  {
    WhereMembership(s, (e: Entry) => Passes(e, b), e);
    WhereKeyed(s, (e: Entry) => Passes(e, b));
  }

  // ---------------------------------------------------------------------
  // Statistics: best and worst movies

  /** `rating_list`: the ratings in snapshot order. */
  function Ratings(s: Snapshot): (r: seq<real>)
    ensures |r| == |s|
  {
    seq(|s|, i requires 0 <= i < |s| => s[i].info.rating)
  }

  /** `max(xs)`: a value of the list that no value exceeds. */
  function MaxOf(xs: seq<real>): (m: real)
    requires xs != []
    ensures m in xs && forall i :: 0 <= i < |xs| ==> xs[i] <= m
  {
    if |xs| == 1 then xs[0]
    else
      var m := MaxOf(xs[..|xs| - 1]);
      if xs[|xs| - 1] > m then xs[|xs| - 1] else m
  }

  /** `min(xs)`: a value of the list that no value undercuts. */
  function MinOf(xs: seq<real>): (m: real)
    requires xs != []
    ensures m in xs && forall i :: 0 <= i < |xs| ==> m <= xs[i]
  {
    if |xs| == 1 then xs[0]
    else
      var m := MinOf(xs[..|xs| - 1]);
      if xs[|xs| - 1] < m then xs[|xs| - 1] else m
  }

  /** `best_movies`: every movie rated at the maximum, in snapshot order. */
  function Best(s: Snapshot): Snapshot
    requires s != []
  {
    Where(s, (e: Entry) => e.info.rating == MaxOf(Ratings(s)))
  }

  /** `worst_movies`: every movie rated at the minimum, in snapshot order. */
  function Worst(s: Snapshot): Snapshot
    requires s != []
  {
    Where(s, (e: Entry) => e.info.rating == MinOf(Ratings(s)))
  }

  datatype Extremes = Extremes(best: Snapshot, worst: Snapshot)

  /** The best/worst part of "Show stats". An empty collection gives `None`
      (`max([])` raises ValueError, which the command reports). */
  method Statistics(s: Snapshot) returns (r: Option<Extremes>)
    ensures r.None? <==> s == []
    ensures r.Some? ==> s != [] && r.value == Extremes(Best(s), Worst(s))
  {
    var ratings: seq<real> := [];
    for i := 0 to |s|
      invariant |ratings| == i
      invariant forall k :: 0 <= k < i ==> ratings[k] == s[k].info.rating
    {
      ratings := ratings + [s[i].info.rating];
    }
    assert ratings == Ratings(s);
    if ratings == [] {
      return None;
    }
    var hi, lo := ratings[0], ratings[0];
    for i := 1 to |ratings|
      invariant hi == MaxOf(ratings[..i]) && lo == MinOf(ratings[..i])
    {
      assert ratings[..i + 1][..i] == ratings[..i];
      if ratings[i] > hi {
        hi := ratings[i];
      }
      if ratings[i] < lo {
        lo := ratings[i];
      }
    }
    assert ratings[..|ratings|] == ratings;
    var best, worst := [], [];
    for i := 0 to |s|
      invariant best == Where(s[..i], (e: Entry) => e.info.rating == MaxOf(Ratings(s)))
      invariant worst == Where(s[..i], (e: Entry) => e.info.rating == MinOf(Ratings(s)))
    {
      assert s[..i + 1][..i] == s[..i];
      if s[i].info.rating == hi {
        best := best + [s[i]];
      }
      if s[i].info.rating == lo {
        worst := worst + [s[i]];
      }
    }
    assert s[..|s|] == s;
    r := Some(Extremes(best, worst));
  }

  /** The best movies are exactly those rated at least as high as every movie. */
  lemma BestIsArgmax(s: Snapshot, e: Entry)
    requires s != []
    ensures e in Best(s) <==> e in s && forall f :: f in s ==> f.info.rating <= e.info.rating
  {
    var top := MaxOf(Ratings(s));
    WhereMembership(s, (e: Entry) => e.info.rating == MaxOf(Ratings(s)), e);
    if e in s && forall f :: f in s ==> f.info.rating <= e.info.rating {
      var k :| 0 <= k < |s| && Ratings(s)[k] == top;
      assert s[k] in s;
      var j :| 0 <= j < |s| && s[j] == e;
      assert Ratings(s)[j] == e.info.rating;
    }
    if e in Best(s) {
      forall f | f in s
        ensures f.info.rating <= e.info.rating
      {
        var k :| 0 <= k < |s| && s[k] == f;
        assert Ratings(s)[k] == f.info.rating;
      }
    }
  }

  /** The worst movies are exactly those rated at most as high as every movie. */
  lemma WorstIsArgmin(s: Snapshot, e: Entry)
    requires s != []
    ensures e in Worst(s) <==> e in s && forall f :: f in s ==> e.info.rating <= f.info.rating
  {
    var bottom := MinOf(Ratings(s));
    WhereMembership(s, (e: Entry) => e.info.rating == MinOf(Ratings(s)), e);
    if e in s && forall f :: f in s ==> e.info.rating <= f.info.rating {
      var k :| 0 <= k < |s| && Ratings(s)[k] == bottom;
      assert s[k] in s;
      var j :| 0 <= j < |s| && s[j] == e;
      assert Ratings(s)[j] == e.info.rating;
    }
    if e in Worst(s) {
      forall f | f in s
        ensures e.info.rating <= f.info.rating
      {
        var k :| 0 <= k < |s| && s[k] == f;
        assert Ratings(s)[k] == f.info.rating;
      }
    }
  }

  /** When all movies share one rating, every movie is both best and worst. */
  lemma AllEqualRatings(s: Snapshot)
    requires s != []
    requires forall i :: 0 <= i < |s| ==> s[i].info.rating == s[0].info.rating
    ensures Best(s) == s && Worst(s) == s
  {
    var rs := Ratings(s);
    var hi, lo := MaxOf(rs), MinOf(rs);
    assert rs[0] <= hi && lo <= rs[0];
    WhereAll(s, (e: Entry) => e.info.rating == MaxOf(Ratings(s)));
    WhereAll(s, (e: Entry) => e.info.rating == MinOf(Ratings(s)));
  }

  // ---------------------------------------------------------------------
  // Random pick

  /** `random.choice(list(movies))`, the randomness being the number `draw`.
      An empty collection gives `None` (the IndexError the command reports). */
  function RandomPick(s: Snapshot, draw: nat): (r: Option<Entry>)
    ensures r.None? <==> s == []
    ensures r.Some? ==> r.value in s
  {
    if s == [] then None else Some(s[draw % |s|])
  }

  /** Every movie of the collection can be the one picked. */
  lemma EveryMovieCanBePicked(s: Snapshot, e: Entry)
    requires e in s
    ensures exists draw: nat :: RandomPick(s, draw) == Some(e)
  {
    var k :| 0 <= k < |s| && s[k] == e;
    assert k % |s| == k;
    assert RandomPick(s, k) == Some(e);
  }

  // ---------------------------------------------------------------------
  // Search

  /** Where a title goes in a search. */
  datatype Class = Exact | Similar(score: int) | Unmatched

  /** The lower-cased query inside the lower-cased title is an exact match;
      otherwise a fuzzy score of 80 or more makes it similar. */
  function Classify(query: string, title: string, score: int): Class
  {
    if IsSubstring(query, Lower(title)) then Exact
    else if score >= 80 then Similar(score)
    else Unmatched
  }

  /** A similar movie with its fuzzy score (`value['fuzzy_ratio']`). */
  datatype Match = Match(entry: Entry, score: int)

  /** `(fuzzy_ratio, title)`, the key the similar movies are ranked by. */
  function MatchKey(m: Match): Key
  {
    Key(m.score as real, m.entry.title)
  }

  /** The three groups of a search: the exact matches, the similar movies,
      and the titles for which the "doesn't exist ... add it?" offer is made. */
  datatype Groups = Groups(exact: Snapshot, similar: seq<Match>, unmatched: seq<string>)

  /** The groups of one pass over the snapshot, each in snapshot order;
      `ratio` is the fuzzy scorer `fuzz.token_set_ratio`. */
  function Group(query: string, s: Snapshot, ratio: (string, string) -> int): Groups
  {
    if s == [] then Groups([], [], [])
    else
      var g := Group(query, s[..|s| - 1], ratio);
      var e := s[|s| - 1];
      var score := ratio(query, e.title);
      match Classify(query, e.title, score)
      case Exact => g.(exact := g.exact + [e])
      case Similar(_) => g.(similar := g.similar + [Match(e, score)])
      case Unmatched => g.(unmatched := g.unmatched + [e.title])
  }

  /** `sorted(dict_similar_movies.items(), key=(fuzzy_ratio, title), reverse=True)`. */
  function RankSimilar(ms: seq<Match>): (r: seq<Match>)
    ensures |r| == |ms| && multiset(r) == multiset(ms)
    ensures SortedBy(r, MatchKey, true)
  {
    SortSorted(ms, MatchKey, true);
    Sort(ms, MatchKey, true)
  }

  /** "Search movie": lower-cases the query, classifies every title (no
      early exit) and ranks the similar ones. */
  method SearchMovie(input: string, s: Snapshot, ratio: (string, string) -> int) returns (r: Groups)
    ensures var g := Group(Lower(input), s, ratio);
      r == g.(similar := RankSimilar(g.similar))
  {
    var query := Lower(input);
    var exact, similar, unmatched := [], [], [];
    for i := 0 to |s|
      invariant Groups(exact, similar, unmatched) == Group(query, s[..i], ratio)
    {
      assert s[..i + 1][..i] == s[..i];
      var e := s[i];
      var score := ratio(query, e.title);
      if IsSubstring(query, Lower(e.title)) {
        exact := exact + [e];
      } else if score >= 80 {
        similar := similar + [Match(e, score)];
      } else {
        unmatched := unmatched + [e.title];
      }
    }
    assert s[..|s|] == s;
    r := Groups(exact, RankSimilar(similar), unmatched);
  }

  /** Every title is visited once: the three groups together are as many as
      the movies of the snapshot. */
  lemma {:induction false} GroupCounts(query: string, s: Snapshot, ratio: (string, string) -> int)
    ensures var g := Group(query, s, ratio);
      |g.exact| + |g.similar| + |g.unmatched| == |s|
  {
    if s != [] {
      GroupCounts(query, s[..|s| - 1], ratio);
    }
  }

  /** What each group holds: exact matches, similar movies with their own
      score (at least 80, not an exact match), unmatched titles. */
  lemma {:induction false} GroupMembers(query: string, s: Snapshot, ratio: (string, string) -> int)
    ensures var g := Group(query, s, ratio);
      (forall e :: e in g.exact ==> e in s && IsSubstring(query, Lower(e.title)))
      && (forall m :: m in g.similar ==> (m.entry in s && m.score == ratio(query, m.entry.title)
            && m.score >= 80 && !IsSubstring(query, Lower(m.entry.title))))
      && (forall t :: t in g.unmatched ==> exists e :: (e in s && e.title == t
            && Classify(query, t, ratio(query, t)) == Unmatched))
  {
    if s != [] {
      var init := s[..|s| - 1];
      GroupMembers(query, init, ratio);
      assert s == init + [s[|s| - 1]];
      var g := Group(query, init, ratio);
      forall t | t in g.unmatched
        ensures exists e :: e in s && e.title == t && Classify(query, t, ratio(query, t)) == Unmatched
      {
        var e :| e in init && e.title == t && Classify(query, t, ratio(query, t)) == Unmatched;
        assert e in s;
      }
    }
  }

  /** Each movie of the snapshot lands in the group its classification names
      and in no other. */
  lemma {:induction false} GroupPartition(query: string, s: Snapshot, ratio: (string, string) -> int, e: Entry)
    requires Keyed(s) && e in s
    ensures var g := Group(query, s, ratio);
      var c := Classify(query, e.title, ratio(query, e.title));
      (e in g.exact <==> c == Exact)
      && (Match(e, ratio(query, e.title)) in g.similar <==> c.Similar?)
      && (e.title in g.unmatched <==> c == Unmatched)
  {
    var init := s[..|s| - 1];
    var last := s[|s| - 1];
    assert s == init + [last];
    assert Keyed(init);
    GroupMembers(query, init, ratio);
    var g := Group(query, init, ratio);
    if e == last {
      assert forall x :: x in init ==> x.title != last.title by {
        forall x | x in init
          ensures x.title != last.title
        {
          var k :| 0 <= k < |init| && init[k] == x;
          assert s[k] == x;
        }
      }
      assert e !in g.exact;
      assert Match(e, ratio(query, e.title)) !in g.similar;
      assert e.title !in g.unmatched;
    } else {
      assert e in init;
      GroupPartition(query, init, ratio, e);
      assert e.title != last.title by {
        var k :| 0 <= k < |init| && init[k] == e;
        assert s[k] == e;
      }
    }
  }

  function MatchTitle(m: Match): string
  {
    m.entry.title
  }

  /** The similar movies of a keyed snapshot have distinct titles. */
  lemma {:induction false} SimilarTitlesDistinct(query: string, s: Snapshot, ratio: (string, string) -> int)
    requires Keyed(s)
    ensures DistinctBy(Group(query, s, ratio).similar, MatchTitle)
  {
    if s != [] {
      var init, last := s[..|s| - 1], s[|s| - 1];
      assert s == init + [last];
      assert Keyed(init);
      SimilarTitlesDistinct(query, init, ratio);
      GroupMembers(query, init, ratio);
      var sim := Group(query, init, ratio).similar;
      forall m | m in sim
        ensures m.entry.title != last.title
      {
        var k :| 0 <= k < |init| && init[k] == m.entry;
        assert s[k] == m.entry;
      }
    }
  }

  /** The ranked similar list holds only similar movies (score 80 or more,
      query not in the title), highest score first, ties broken by the
      alphabetically later title. */
  lemma RankedSimilar(query: string, s: Snapshot, ratio: (string, string) -> int)
    requires Keyed(s)
    ensures var r := RankSimilar(Group(query, s, ratio).similar);
      forall k :: 0 <= k < |r| ==> r[k].score >= 80 && !IsSubstring(query, Lower(r[k].entry.title))
    ensures var r := RankSimilar(Group(query, s, ratio).similar);
      forall i, j :: 0 <= i < j < |r| ==>
        r[i].score > r[j].score || (r[i].score == r[j].score && LexLess(r[j].entry.title, r[i].entry.title))
  {
    var g := Group(query, s, ratio);
    var r := RankSimilar(g.similar);
    GroupMembers(query, s, ratio);
    forall k | 0 <= k < |r|
      ensures r[k].score >= 80 && !IsSubstring(query, Lower(r[k].entry.title))
    {
      assert r[k] in multiset(g.similar);
    }
    forall i, j | 0 <= i < j < |r|
      ensures r[i].score > r[j].score || (r[i].score == r[j].score && LexLess(r[j].entry.title, r[i].entry.title))
    {
      assert Before(MatchKey(r[i]), MatchKey(r[j]), true);
      if r[i].score == r[j].score {
        SimilarTitlesDistinct(query, s, ratio);
        PermutationDistinct(g.similar, r, MatchTitle);
        assert MatchTitle(r[i]) != MatchTitle(r[j]);
        LexTotal(r[i].entry.title, r[j].entry.title);
      }
    }
  }

  // ---------------------------------------------------------------------
  // Website list items

  /** The `<li>` block of one movie: its poster, its title (three times) and
      its year, between the fixed pieces of HTML below. */
  function MovieBlock(e: Entry): string
  {
    BlockOpen() + (e.info.poster + (AltOpen() + (e.title + (TitleAttr() + (e.title + (ImgClose()
    + (e.title + (YearOpen() + (DecimalText(e.info.year) + BlockClose())))))))))
  }

  function BlockOpen(): string
  {
    "<li>\n\n        <div class=\"movie\">\n\n            <img class=\"movie-poster\" src="
  }

  function AltOpen(): string
  {
    " alt=\"Poster of the movie "
  }

  function TitleAttr(): string
  {
    "\" title=\""
  }

  function ImgClose(): string
  {
    "\"/>\n\n            <div class=\"movie-title\">"
  }

  function YearOpen(): string
  {
    "</div>\n\n            <div class=\"movie-year\">"
  }

  function BlockClose(): string
  {
    "</div>\n\n        </div>\n\n        </li>\n"
  }

  /** The text `serialize_movie` returns: the blocks of all movies, one
      after the other, in snapshot order. */
  function Html(s: Snapshot): string
  {
    Join(s, MovieBlock)
  }

  /** `serialize_movie`: the `html_str += ...` loop. */
  method SerializeMovie(s: Snapshot) returns (html: string)
    ensures html == Html(s)
  {
    html := "";
    for i := 0 to |s|
      invariant html == Join(s[..i], MovieBlock)
    {
      JoinStep(s, MovieBlock, i);
      html := html + MovieBlock(s[i]);
    }
    assert s[..|s|] == s;
  }

  /** The page is empty exactly when the collection is. */
  lemma HtmlEmpty(s: Snapshot)
    ensures Html(s) == "" <==> s == []
  {
    if s != [] {
      assert |MovieBlock(s[|s| - 1])| > 0;
    }
  }

  /** Serialising two parts of a collection is serialising each and joining the texts. */
  lemma HtmlConcat(a: Snapshot, b: Snapshot)
    ensures Html(a + b) == Html(a) + Html(b)
  {
    JoinConcat(a, b, MovieBlock);
  }

  /** A movie's block shows its poster, its title and its year. */
  lemma BlockShowsMovie(e: Entry)
    ensures IsSubstring(e.info.poster, MovieBlock(e))
    ensures IsSubstring(e.title, MovieBlock(e))
    ensures IsSubstring(DecimalText(e.info.year), MovieBlock(e))
  {
    var poster, title, year := e.info.poster, e.title, DecimalText(e.info.year);
    var fromYear := year + BlockClose();
    var fromThirdTitle := title + (YearOpen() + fromYear);
    var fromSecondTitle := title + (ImgClose() + fromThirdTitle);
    var fromFirstTitle := title + (TitleAttr() + fromSecondTitle);
    var fromPoster := poster + (AltOpen() + fromFirstTitle);
    assert MovieBlock(e) == BlockOpen() + fromPoster;
    SubstringStart(poster, AltOpen() + fromFirstTitle);
    SubstringPrepend(poster, BlockOpen(), fromPoster);
    SubstringStart(title, TitleAttr() + fromSecondTitle);
    SubstringPrepend(title, AltOpen(), fromFirstTitle);
    SubstringPrepend(title, poster, AltOpen() + fromFirstTitle);
    SubstringPrepend(title, BlockOpen(), fromPoster);
    SubstringStart(year, BlockClose());
    SubstringPrepend(year, YearOpen(), fromYear);
    SubstringPrepend(year, title, YearOpen() + fromYear);
    SubstringPrepend(year, ImgClose(), fromThirdTitle);
    SubstringPrepend(year, title, ImgClose() + fromThirdTitle);
    SubstringPrepend(year, TitleAttr(), fromSecondTitle);
    SubstringPrepend(year, title, TitleAttr() + fromSecondTitle);
    SubstringPrepend(year, AltOpen(), fromFirstTitle);
    SubstringPrepend(year, poster, AltOpen() + fromFirstTitle);
    SubstringPrepend(year, BlockOpen(), fromPoster);
  }

  /** The page shows every movie of the collection: its block, and in it
      its poster, its title and its year. */
  lemma HtmlShowsEveryMovie(s: Snapshot, k: int)
    requires 0 <= k < |s|
    ensures IsSubstring(MovieBlock(s[k]), Html(s))
    ensures IsSubstring(s[k].title, Html(s))
    ensures IsSubstring(s[k].info.poster, Html(s))
    ensures IsSubstring(DecimalText(s[k].info.year), Html(s))
  {
    JoinShowsEach(s, MovieBlock, k);
    BlockShowsMovie(s[k]);
    SubstringTransitive(s[k].title, MovieBlock(s[k]), Html(s));
    SubstringTransitive(s[k].info.poster, MovieBlock(s[k]), Html(s));
    SubstringTransitive(DecimalText(s[k].info.year), MovieBlock(s[k]), Html(s));
  }

  // ---------------------------------------------------------------------
  // The rating prompt of "Update movie"

  /** A typed rating is used when it parses and lies in 0..10. */
  predicate AcceptedRating(a: Option<real>)
  {
    a.Some? && 0.0 <= a.value <= 10.0
  }

  /** The `while not valid` loop: answers are read until one is accepted.
      `None` means the answers ran out before that. */
  method ReadRating(answers: seq<Option<real>>) returns (r: Option<real>)
    ensures r.None? <==> forall i :: 0 <= i < |answers| ==> !AcceptedRating(answers[i])
    ensures r.Some? ==> 0.0 <= r.value <= 10.0
    ensures r.Some? ==> exists i :: (0 <= i < |answers| && answers[i] == r
      && forall j :: 0 <= j < i ==> !AcceptedRating(answers[j]))
  {
    var i := 0;
    var valid := false;
    r := None;
    while !valid && i < |answers|
      invariant 0 <= i <= |answers|
      invariant valid <==> r.Some?
      invariant !valid ==> forall j :: 0 <= j < i ==> !AcceptedRating(answers[j])
      invariant valid ==> (0 < i && answers[i - 1] == r && AcceptedRating(r)
        && forall j :: 0 <= j < i - 1 ==> !AcceptedRating(answers[j]))
    {
      var answer := answers[i];
      if answer.Some? && 0.0 <= answer.value <= 10.0 {
        valid := true;
        r := answer;
      }
      i := i + 1;
    }
  }
}
