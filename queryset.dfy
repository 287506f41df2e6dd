/**
 * What Play.objects.filter(...).distinct() returns, over an in-memory
 * catalogue instead of a database.
 *
 * A lookup across a many-to-many relation (genres__id__in=ids) is an SQL
 * join: a play comes back once for every related id in the list, so one
 * play with two listed genres is two rows. Each further filter() call on a
 * multi-valued relation joins again and multiplies the rows. distinct()
 * then keeps each row once, at its first position.
 */
module QuerySet {
  import opened Text

  /** A row of the Play table with the ids of its genres and actors. */
  datatype Play = Play(id: int, title: string, description: string, genreIds: set<int>, actorIds: set<int>)

  /** The two many-to-many relations of Play. */
  datatype Relation = Genres | Actors

  function Related(p: Play, rel: Relation): set<int> {
    match rel
    case Genres => p.genreIds
    case Actors => p.actorIds
  }

  /** The field lookups get_queryset uses: title__icontains and <relation>__id__in. */
  datatype Lookup =
    | TitleIContains(needle: string)
    | RelatedIdIn(rel: Relation, ids: seq<int>)

  /** How many rows the lookup yields for one play: 0 or 1 for a column, one per matching related id for a join. */
  function Fanout(p: Play, l: Lookup): nat {
    match l
    case TitleIContains(needle) => if IContains(p.title, needle) then 1 else 0
    case RelatedIdIn(rel, ids) => |Related(p, rel) * set i | i in ids|
  }

  /** The play satisfies the lookup. */
  predicate Matches(p: Play, l: Lookup) {
    Fanout(p, l) > 0
  }

  /** A play matches an id lookup exactly when one of the listed ids is among its related ids. */
  lemma MatchesRelated(p: Play, rel: Relation, ids: seq<int>)
    ensures Matches(p, RelatedIdIn(rel, ids)) <==> exists i :: i in ids && i in Related(p, rel)
  {
    var common := Related(p, rel) * set i | i in ids;
    if exists i :: i in ids && i in Related(p, rel) {
      var i :| i in ids && i in Related(p, rel);
      assert i in common;
    } else {
      assert common == {};
    }
  }

  /** k copies of the row p. */
  function Repeat(p: Play, k: nat): (rows: seq<Play>)
    ensures |rows| == k
    ensures forall q :: q in rows <==> k > 0 && q == p
  {
    if k == 0 then [] else [p] + Repeat(p, k - 1)
  }

  /** rows.filter(l): each row replaced by as many copies as the lookup yields for it. */
  function Filter(rows: seq<Play>, l: Lookup): (out: seq<Play>)
    ensures forall p :: p in out <==> p in rows && Matches(p, l)
  {
    if rows == [] then [] else Repeat(rows[0], Fanout(rows[0], l)) + Filter(rows[1..], l)
  }

  /** A chain of filter() calls, applied in order. */
  function FilterAll(rows: seq<Play>, lookups: seq<Lookup>): (out: seq<Play>)
    ensures forall p :: p in out <==> p in rows && MatchesAll(p, lookups)
    decreases |lookups|
  {
    if lookups == [] then rows
    else
      MatchesAllFirst(lookups);
      FilterAll(Filter(rows, lookups[0]), lookups[1..])
  }

  predicate NoDuplicates(rows: seq<Play>) {
    forall i, j :: 0 <= i < j < |rows| ==> rows[i] != rows[j]
  }

  lemma NoDuplicatesCons(p: Play, rows: seq<Play>)
    requires p !in rows && NoDuplicates(rows)
    ensures NoDuplicates([p] + rows)
  {
    var s := [p] + rows;
    forall i, j | 0 <= i < j < |s|
      ensures s[i] != s[j]
    {
      assert s[j] == rows[j - 1];
      if i > 0 { assert s[i] == rows[i - 1]; }
    }
  }

  /** The rows that are not in seen, each kept once, at its first position. */
  function DistinctFrom(rows: seq<Play>, seen: set<Play>): (out: seq<Play>)
    ensures forall p :: p in out <==> p in rows && p !in seen
    ensures NoDuplicates(out)
  {
    if rows == [] then []
    else if rows[0] in seen then DistinctFrom(rows[1..], seen)
    else
      var rest := DistinctFrom(rows[1..], seen + {rows[0]});
      NoDuplicatesCons(rows[0], rest);
      [rows[0]] + rest
  }

  /** queryset.distinct() */
  function Distinct(rows: seq<Play>): (out: seq<Play>)
    ensures NoDuplicates(out)
    ensures forall p :: p in out <==> p in rows
  {
    DistinctFrom(rows, {})
  }

  /** The play satisfies every lookup. */
  predicate MatchesAll(p: Play, lookups: seq<Lookup>) {
    forall k :: 0 <= k < |lookups| ==> Matches(p, lookups[k])
  }

  /** Satisfying two lists of lookups is satisfying their concatenation. */
  lemma MatchesAllAppend(p: Play, first: seq<Lookup>, second: seq<Lookup>)
    ensures MatchesAll(p, first + second) <==> MatchesAll(p, first) && MatchesAll(p, second)
  {
    var both := first + second;
    if MatchesAll(p, first) && MatchesAll(p, second) {
      forall k | 0 <= k < |both|
        ensures Matches(p, both[k])
      {
        if k >= |first| { assert both[k] == second[k - |first|]; }
      }
    }
    if MatchesAll(p, both) {
      forall k | 0 <= k < |first|
        ensures Matches(p, first[k])
      {
        assert both[k] == first[k];
      }
      forall k | 0 <= k < |second|
        ensures Matches(p, second[k])
      {
        assert both[|first| + k] == second[k];
      }
    }
  }

  /** Satisfying a list of one lookup is satisfying that lookup. */
  lemma MatchesAllSingle(p: Play, l: Lookup)
    ensures MatchesAll(p, [l]) <==> Matches(p, l)
  {
    assert [l][0] == l;
  }

  /** Satisfying a non-empty list of lookups is satisfying its first one and the rest. */
  lemma MatchesAllFirst(lookups: seq<Lookup>)
    requires lookups != []
    ensures forall p :: MatchesAll(p, lookups) <==> Matches(p, lookups[0]) && MatchesAll(p, lookups[1..])
  {
    forall p
      ensures MatchesAll(p, lookups) <==> Matches(p, lookups[0]) && MatchesAll(p, lookups[1..])
    {
      MatchesAllAppend(p, [lookups[0]], lookups[1..]);
      MatchesAllSingle(p, lookups[0]);
      assert [lookups[0]] + lookups[1..] == lookups;
    }
  }

  /** The reference selection: the rows that satisfy every lookup, each once, in table order. */
  function Where(rows: seq<Play>, lookups: seq<Lookup>): (out: seq<Play>)
    ensures forall p :: p in out <==> p in rows && MatchesAll(p, lookups)
  {
    if rows == [] then []
    else
      var rest := Where(rows[1..], lookups);
      if MatchesAll(rows[0], lookups) then [rows[0]] + rest else rest
  }

  /** Selecting from distinct rows gives distinct rows. */
  lemma {:induction false} WhereKeepsDistinct(rows: seq<Play>, lookups: seq<Lookup>)
    requires NoDuplicates(rows)
    ensures NoDuplicates(Where(rows, lookups))
  {
    if rows != [] {
      WhereKeepsDistinct(rows[1..], lookups);
      if MatchesAll(rows[0], lookups) {
        assert forall j :: 0 < j < |rows| ==> rows[j] != rows[0];
        NoDuplicatesCons(rows[0], Where(rows[1..], lookups));
      }
    }
  }

  // --- Why distinct() undoes the fan-out of the joins ---

  /** A chain of filter() calls can be split anywhere. */
  lemma {:induction false} FilterAllAppend(rows: seq<Play>, first: seq<Lookup>, second: seq<Lookup>)
    ensures FilterAll(rows, first + second) == FilterAll(FilterAll(rows, first), second)
    decreases |first|
  {
    if first == [] {
      assert first + second == second;
    } else {
      assert (first + second)[0] == first[0] && (first + second)[1..] == first[1..] + second;
      FilterAllAppend(Filter(rows, first[0]), first[1..], second);
    }
  }

  /** Where distributes over concatenation. */
  lemma {:induction false} WhereAppend(a: seq<Play>, b: seq<Play>, lookups: seq<Lookup>)
    ensures Where(a + b, lookups) == Where(a, lookups) + Where(b, lookups)
  {
    if a == [] {
      assert a + b == b;
    } else {
      assert (a + b)[0] == a[0] && (a + b)[1..] == a[1..] + b;
      WhereAppend(a[1..], b, lookups);
    }
  }

  /** Selecting from copies of one row keeps all of them or none. */
  lemma {:induction false} WhereRepeat(p: Play, k: nat, lookups: seq<Lookup>)
    ensures Where(Repeat(p, k), lookups) == if MatchesAll(p, lookups) then Repeat(p, k) else []
  {
    if k > 0 {
      WhereRepeat(p, k - 1, lookups);
      assert Repeat(p, k)[0] == p && Repeat(p, k)[1..] == Repeat(p, k - 1);
    }
  }

  /** Selecting after a join is the join of the selection. */
  lemma {:induction false} WhereFilter(rows: seq<Play>, l: Lookup, lookups: seq<Lookup>)
    ensures Where(Filter(rows, l), lookups) == Filter(Where(rows, lookups), l)
  {
    if rows != [] {
      var p, k := rows[0], Fanout(rows[0], l);
      WhereAppend(Repeat(p, k), Filter(rows[1..], l), lookups);
      WhereRepeat(p, k, lookups);
      WhereFilter(rows[1..], l, lookups);
      var rest := Where(rows[1..], lookups);
      if MatchesAll(p, lookups) {
        assert Where(rows, lookups) == [p] + rest;
        assert ([p] + rest)[0] == p && ([p] + rest)[1..] == rest;
      }
    }
  }

  /** Selecting by one lookup and then by more is selecting by all of them. */
  lemma {:induction false} WhereWhere(rows: seq<Play>, l: Lookup, lookups: seq<Lookup>)
    ensures Where(Where(rows, lookups), [l]) == Where(rows, [l] + lookups)
  {
    if rows != [] {
      WhereWhere(rows[1..], l, lookups);
      var p := rows[0];
      MatchesAllAppend(p, [l], lookups);
      MatchesAllSingle(p, l);
      var rest := Where(rows[1..], lookups);
      if MatchesAll(p, lookups) {
        assert Where(rows, lookups) == [p] + rest;
        assert ([p] + rest)[0] == p && ([p] + rest)[1..] == rest;
      }
    }
  }

  /** Selecting by no lookup keeps every row. */
  lemma {:induction false} WhereNothing(rows: seq<Play>)
    ensures Where(rows, []) == rows
  {
    if rows != [] {
      WhereNothing(rows[1..]);
    }
  }

  /** distinct() sees k copies of a row as one. */
  lemma {:induction false} DistinctFromRepeat(p: Play, k: nat, rest: seq<Play>, seen: set<Play>)
    ensures DistinctFrom(Repeat(p, k) + rest, seen) ==
      if k > 0 && p !in seen then [p] + DistinctFrom(rest, seen + {p}) else DistinctFrom(rest, seen)
  {
    if k > 0 {
      var s := Repeat(p, k) + rest;
      assert s[0] == p && s[1..] == Repeat(p, k - 1) + rest;
      DistinctFromRepeat(p, k - 1, rest, if p in seen then seen else seen + {p});
      assert seen + {p} + {p} == seen + {p};
    } else {
      assert Repeat(p, k) + rest == rest;
    }
  }

  /** Distinct rows of one join are the distinct matching rows. */
  lemma {:induction false} DistinctFilter(rows: seq<Play>, l: Lookup, seen: set<Play>)
    ensures DistinctFrom(Filter(rows, l), seen) == DistinctFrom(Where(rows, [l]), seen)
  {
    if rows != [] {
      var p, k := rows[0], Fanout(rows[0], l);
      DistinctFromRepeat(p, k, Filter(rows[1..], l), seen);
      DistinctFilter(rows[1..], l, seen);
      DistinctFilter(rows[1..], l, seen + {p});
      var rest := Where(rows[1..], [l]);
      assert MatchesAll(p, [l]) <==> k > 0 by {
        assert [l][0] == l;
      }
      if k > 0 {
        assert Where(rows, [l]) == [p] + rest;
        assert ([p] + rest)[0] == p && ([p] + rest)[1..] == rest;
      }
    }
  }

  /** Distinct rows of a chain of joins are the distinct rows that satisfy every lookup. */
  lemma {:induction false} DistinctFilterAll(rows: seq<Play>, lookups: seq<Lookup>, seen: set<Play>)
    ensures DistinctFrom(FilterAll(rows, lookups), seen) == DistinctFrom(Where(rows, lookups), seen)
    decreases |lookups|
  {
    if lookups == [] {
      WhereNothing(rows);
    } else {
      var l, more := lookups[0], lookups[1..];
      DistinctFilterAll(Filter(rows, l), more, seen);
      WhereFilter(rows, l, more);
      DistinctFilter(Where(rows, more), l, seen);
      WhereWhere(rows, l, more);
      assert [l] + more == lookups;
    }
  }

  /** distinct() leaves rows that are already distinct, and not yet seen, as they are. */
  lemma {:induction false} DistinctFromDistinct(rows: seq<Play>, seen: set<Play>)
    requires NoDuplicates(rows)
    requires forall p :: p in rows ==> p !in seen
    ensures DistinctFrom(rows, seen) == rows
  {
    if rows != [] {
      assert forall j :: 0 < j < |rows| ==> rows[j] != rows[0];
      DistinctFromDistinct(rows[1..], seen + {rows[0]});
    }
  }

  /**
   * The query contract: filter() calls followed by distinct() return, from a
   * table of distinct rows, exactly the rows that satisfy every lookup, once
   * each and in table order, however many joined ids a row matches.
   */
  lemma FilterAllDistinct(rows: seq<Play>, lookups: seq<Lookup>)
    requires NoDuplicates(rows)
    ensures Distinct(FilterAll(rows, lookups)) == Where(rows, lookups)
  {
    DistinctFilterAll(rows, lookups, {});
    WhereKeepsDistinct(rows, lookups);
    DistinctFromDistinct(Where(rows, lookups), {});
  }
}
