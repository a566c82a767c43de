/** The value `list_movies()` hands to every command: a dict from title to
    `{year, rating, poster}`. A Python dict remembers insertion order, and the
    commands print and serialise in that order, so a snapshot is a sequence
    of entries whose titles are distinct; `AsMap` is its key/value view. */
module Snapshots {

  datatype Info = Info(year: int, rating: real, poster: string)

  datatype Entry = Entry(title: string, info: Info)

  type Snapshot = seq<Entry>

  /** No title appears twice (a dict has each key once). */
  predicate Keyed(s: Snapshot)
  {
    forall i, j :: 0 <= i < j < |s| ==> s[i].title != s[j].title
  }

  /** The dict view: building the dict entry by entry, a later entry for the
      same title replacing the value of an earlier one. */
  function AsMap(s: Snapshot): map<string, Info>
  {
    if s == [] then map[] else AsMap(s[..|s| - 1])[s[|s| - 1].title := s[|s| - 1].info]
  }

  /** The keys of the dict view are the titles of the entries. */
  lemma {:induction false} AsMapKeys(s: Snapshot, t: string)
    ensures t in AsMap(s) <==> exists e :: e in s && e.title == t
  {
    if s != [] {
      var init := s[..|s| - 1];
      AsMapKeys(init, t);
      assert s == init + [s[|s| - 1]];
      if exists e :: e in init && e.title == t {
        var e :| e in init && e.title == t;
        assert e in s;
      }
    }
  }

  /** In a keyed snapshot the dict view maps each title to that entry's value. */
  lemma {:induction false} AsMapValue(s: Snapshot, e: Entry)
    requires Keyed(s) && e in s
    ensures e.title in AsMap(s) && AsMap(s)[e.title] == e.info
  {
    var last := s[|s| - 1];
    if e != last {
      var init := s[..|s| - 1];
      assert s == init + [last];
      var k :| 0 <= k < |s| && s[k] == e;
      assert k < |s| - 1;
      assert e in init;
      assert Keyed(init);
      AsMapValue(init, e);
    }
  }

  /** A keyed snapshot has exactly one dict key per entry. */
  lemma {:induction false} AsMapSize(s: Snapshot)
    requires Keyed(s)
    ensures |AsMap(s)| == |s|
  {
    if s != [] {
      var init := s[..|s| - 1];
      var last := s[|s| - 1];
      assert Keyed(init);
      AsMapSize(init);
      forall e | e in init
        ensures e.title != last.title
      {
        var k :| 0 <= k < |init| && init[k] == e;
        assert s[k] == e;
      }
      AsMapKeys(init, last.title);
    }
  }

  /** The elements of `s` that satisfy `p`, in their order in `s`: the
      accumulator a loop builds with `if p(x): out.append(x)`. */
  function Where<T>(s: seq<T>, p: T -> bool): seq<T>
  {
    if s == [] then [] else Where(s[..|s| - 1], p) + (if p(s[|s| - 1]) then [s[|s| - 1]] else [])
  }

  /** An element is kept exactly when it is in `s` and satisfies `p`. */
  lemma {:induction false} WhereMembership<T>(s: seq<T>, p: T -> bool, x: T)
    ensures x in Where(s, p) <==> x in s && p(x)
  {
    if s != [] {
      var init := s[..|s| - 1];
      WhereMembership(init, p, x);
      assert s == init + [s[|s| - 1]];
    }
  }

  /** When every element satisfies `p`, nothing is dropped. */
  lemma {:induction false} WhereAll<T>(s: seq<T>, p: T -> bool)
    requires forall i :: 0 <= i < |s| ==> p(s[i])
    ensures Where(s, p) == s
  {
    if s != [] {
      var init := s[..|s| - 1];
      WhereAll(init, p);
      assert s == init + [s[|s| - 1]];
    }
  }

  /** Keeping a selection of a keyed snapshot keeps it keyed. */
  lemma {:induction false} WhereKeyed(s: Snapshot, p: Entry -> bool)
    requires Keyed(s)
    ensures Keyed(Where(s, p))
  {
    if s != [] {
      var init := s[..|s| - 1];
      var last := s[|s| - 1];
      assert Keyed(init);
      WhereKeyed(init, p);
      var w := Where(init, p);
      if p(last) {
        forall e | e in w
          ensures e.title != last.title
        {
          WhereMembership(init, p, e);
          var k :| 0 <= k < |init| && init[k] == e;
          assert s[k] == e;
        }
        var r := w + [last];
        forall i, j | 0 <= i < j < |r|
          ensures r[i].title != r[j].title
        {
          if j == |r| - 1 {
            assert r[i] in w;
          }
        }
      }
    }
  }
}
