/** Filtering and the newest-first sort applied to lists of notes. */
module Ordering {
  import opened Notes

  /** Non-increasing `createdAt`, newest first. */
  predicate SortedDesc(s: seq<Note>) {
    forall i, j :: 0 <= i < j < |s| ==> s[i].createdAt >= s[j].createdAt
  }

  /** `Array.prototype.filter`: the elements satisfying `p`, in order. */
  function Select(p: Note -> bool, s: seq<Note>): seq<Note> {
    if s == [] then []
    else (if p(s[0]) then [s[0]] else []) + Select(p, s[1..])
  }

  /** A filter keeps every occurrence of each element satisfying `p` and
      none of the others. */
  lemma {:induction false} SelectCount(p: Note -> bool, s: seq<Note>)
    ensures forall x :: multiset(Select(p, s))[x] == if p(x) then multiset(s)[x] else 0
  {
    if s != [] {
      SelectCount(p, s[1..]);
      assert s == [s[0]] + s[1..];
    }
  }

  /** The elements of a filtered list are the elements of the list that
      satisfy `p`. */
  lemma SelectMembers(p: Note -> bool, s: seq<Note>)
    ensures forall x :: x in Select(p, s) <==> x in s && p(x)
  {
    SelectCount(p, s);
    forall x ensures x in Select(p, s) <==> x in s && p(x) {
      assert x in Select(p, s) <==> x in multiset(Select(p, s));
      assert x in s <==> x in multiset(s);
    }
  }

  /** A filtered list holds nothing the list does not, and nothing more
      often. */
  lemma SelectWithin(p: Note -> bool, s: seq<Note>)
    ensures forall x :: multiset(Select(p, s))[x] <= multiset(s)[x]
    ensures forall x :: x in Select(p, s) ==> x in s
  {
    SelectMembers(p, s);
    SelectCount(p, s);
  }

  /** The survivors of a filter keep their relative order, so a filtered
      sorted list is sorted. */
  lemma {:induction false} SelectSorted(p: Note -> bool, s: seq<Note>)
    requires SortedDesc(s)
    ensures SortedDesc(Select(p, s))
  {
    if s != [] {
      var rest := Select(p, s[1..]);
      SelectSorted(p, s[1..]);
      if p(s[0]) {
        var r := [s[0]] + rest;
        SelectMembers(p, s[1..]);
        forall i, j | 0 <= i < j < |r| ensures r[i].createdAt >= r[j].createdAt {
          if i == 0 {
            assert r[j] in rest;
            assert r[j] in s[1..];
          }
        }
      }
    }
  }

  /** Inserts `x` in front of the first element not newer than it, so that
      `x` precedes the elements of `s` with the same `createdAt`. */
  function InsertDesc(x: Note, s: seq<Note>): (r: seq<Note>)
    requires SortedDesc(s)
    ensures SortedDesc(r)
    ensures multiset(r) == multiset{x} + multiset(s)
  {
    if s == [] || s[0].createdAt <= x.createdAt then [x] + s
    else
      var rest := InsertDesc(x, s[1..]);
      InsertDescStep(x, s, rest);
      [s[0]] + rest
  }

  /** The recursive step of `InsertDesc`: `x` goes behind a head newer than
      it, and the head stays in front of every element of the tail. */
  lemma InsertDescStep(x: Note, s: seq<Note>, rest: seq<Note>)
    requires SortedDesc(s) && s != [] && s[0].createdAt > x.createdAt
    requires SortedDesc(rest) && multiset(rest) == multiset{x} + multiset(s[1..])
    ensures SortedDesc([s[0]] + rest)
    ensures multiset([s[0]] + rest) == multiset{x} + multiset(s)
  {
    assert s == [s[0]] + s[1..];
    var r := [s[0]] + rest;
    forall i, j | 0 <= i < j < |r| ensures r[i].createdAt >= r[j].createdAt {
      assert r[j] == rest[j - 1];
      if i > 0 {
        assert r[i] == rest[i - 1];
      } else {
        assert rest[j - 1] in multiset(rest);
        assert rest[j - 1] == x || rest[j - 1] in s[1..];
      }
    }
  }

  /** The comparator sort `(a, b) => b.createdAt - a.createdAt`. It is an
      insertion sort and stable, as `Array.prototype.sort` is. */
  function SortDesc(s: seq<Note>): (r: seq<Note>)
    ensures SortedDesc(r)
    ensures multiset(r) == multiset(s)
  {
    if s == [] then []
    else
      assert s == [s[0]] + s[1..];
      InsertDesc(s[0], SortDesc(s[1..]))
  }

  /** A member of a sorted list is no newer than its head. */
  lemma HeadIsNewest(t: seq<Note>, y: Note)
    requires SortedDesc(t)
    requires y in t
    ensures y.createdAt <= t[0].createdAt
  {
    var i :| 0 <= i < |t| && t[i] == y;
    if i > 0 {
      assert t[0].createdAt >= t[i].createdAt;
    }
  }

  /** Filtering commutes with insertion at the front of a sorted list. */
  lemma SelectInsertFront(p: Note -> bool, x: Note, t: seq<Note>)
    requires SortedDesc(t)
    requires t == [] || t[0].createdAt <= x.createdAt
    ensures SortedDesc(Select(p, t))
    ensures Select(p, InsertDesc(x, t)) == if p(x) then InsertDesc(x, Select(p, t)) else Select(p, t)
  {
    SelectSorted(p, t);
    var u := Select(p, t);
    var xt := [x] + t;
    assert InsertDesc(x, t) == xt;
    SelectCons(p, x, t);
    if p(x) {
      if u != [] {
        SelectMembers(p, t);
        assert u[0] in u;
        HeadIsNewest(t, u[0]);
      }
      assert InsertDesc(x, u) == [x] + u;
    }
  }

  /** Filtering a list with a given head. */
  lemma SelectCons(p: Note -> bool, y: Note, r: seq<Note>)
    ensures Select(p, [y] + r) == if p(y) then [y] + Select(p, r) else Select(p, r)
  {
    assert ([y] + r)[1..] == r;
  }

  /** Insertion behind a head that is newer than the inserted note. */
  lemma InsertBehind(x: Note, t: seq<Note>)
    requires SortedDesc(t)
    requires t != [] && t[0].createdAt > x.createdAt
    ensures SortedDesc(t[1..])
    ensures InsertDesc(x, t) == [t[0]] + InsertDesc(x, t[1..])
  {
  }

  /** Filtering a list whose head is newer than `x` splits into the head
      and the filtered tail, before and after inserting `x`. */
  lemma SelectBehindHead(p: Note -> bool, x: Note, t: seq<Note>)
    requires SortedDesc(t)
    requires t != [] && t[0].createdAt > x.createdAt
    ensures Select(p, InsertDesc(x, t)) ==
      if p(t[0]) then [t[0]] + Select(p, InsertDesc(x, t[1..])) else Select(p, InsertDesc(x, t[1..]))
    ensures Select(p, t) == if p(t[0]) then [t[0]] + Select(p, t[1..]) else Select(p, t[1..])
  {
    var t0 := t[0];
    var t' := t[1..];
    InsertBehind(x, t);
    SelectCons(p, t0, InsertDesc(x, t'));
    assert t == [t0] + t';
    SelectCons(p, t0, t');
  }

  /** One step behind the head, for an `x` the filter keeps: filtering
      commutes with the insertion when it commutes with the insertion into
      the tail. */
  lemma SelectInsertBehindKept(p: Note -> bool, x: Note, t: seq<Note>)
    requires SortedDesc(t) && p(x)
    requires t != [] && t[0].createdAt > x.createdAt
    requires SortedDesc(Select(p, t[1..])) && SortedDesc(Select(p, t))
    requires Select(p, InsertDesc(x, t[1..])) == InsertDesc(x, Select(p, t[1..]))
    ensures Select(p, InsertDesc(x, t)) == InsertDesc(x, Select(p, t))
  {
    SelectBehindHead(p, x, t);
    if p(t[0]) {
      var u := Select(p, t);
      assert u[1..] == Select(p, t[1..]);
      InsertBehind(x, u);
    }
  }

  /** One step behind the head, for an `x` the filter drops. */
  lemma SelectInsertBehindDropped(p: Note -> bool, x: Note, t: seq<Note>)
    requires SortedDesc(t) && !p(x)
    requires t != [] && t[0].createdAt > x.createdAt
    requires Select(p, InsertDesc(x, t[1..])) == Select(p, t[1..])
    ensures Select(p, InsertDesc(x, t)) == Select(p, t)
  {
    SelectBehindHead(p, x, t);
  }

  /** Filtering commutes with insertion into a sorted list. */
  lemma {:induction false} SelectInsert(p: Note -> bool, x: Note, t: seq<Note>)
    requires SortedDesc(t)
    ensures SortedDesc(Select(p, t))
    ensures Select(p, InsertDesc(x, t)) == if p(x) then InsertDesc(x, Select(p, t)) else Select(p, t)
  {
    if t == [] || t[0].createdAt <= x.createdAt {
      SelectInsertFront(p, x, t);
    } else {
      SelectInsert(p, x, t[1..]);
      SelectSorted(p, t);
      if p(x) {
        SelectInsertBehindKept(p, x, t);
      } else {
        SelectInsertBehindDropped(p, x, t);
      }
    }
  }

  /** Filtering then sorting gives the same list as sorting then filtering:
      the stable sort keeps the relative order of the survivors. */
  lemma {:induction false} SelectSortCommute(p: Note -> bool, s: seq<Note>)
    ensures SortDesc(Select(p, s)) == Select(p, SortDesc(s))
  {
    if s != [] {
      var s0 := s[0];
      var s' := s[1..];
      assert s == [s0] + s';
      SelectSortCommute(p, s');
      var sorted' := SortDesc(s');
      assert SortDesc(s) == InsertDesc(s0, sorted');
      SelectInsert(p, s0, sorted');
      var u := Select(p, s');
      if p(s0) {
        assert Select(p, s) == [s0] + u;
        assert ([s0] + u)[1..] == u;
        assert SortDesc([s0] + u) == InsertDesc(s0, SortDesc(u));
      } else {
        assert Select(p, s) == u;
      }
    }
  }
}
