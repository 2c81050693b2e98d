/** Ordering of a title's update candidates at commit time: a stable sort by
    version followed by removal of equal-version neighbours, keeping the
    first of each run. Together they keep, for every version present, the
    candidate that was discovered first. */
module UpdateOrder {
  import opened ContentTypes

  /** The candidates of `s` with version `v`, in order. */
  function WithVersion(s: seq<ParsedUpdate>, v: nat): (r: seq<ParsedUpdate>)
    ensures |r| <= |s|
    ensures forall k :: 0 <= k < |r| ==> r[k].version == v && r[k] in s
    ensures forall x :: x in s && x.version == v ==> x in r
    decreases |s|
  {
    if |s| == 0 then []
    else if s[0].version == v then [s[0]] + WithVersion(s[1..], v)
    else WithVersion(s[1..], v)
  }

  predicate SortedByVersion(s: seq<ParsedUpdate>) {
    forall i, j :: 0 <= i < j < |s| ==> s[i].version <= s[j].version
  }

  predicate StrictlyAscending(s: seq<ParsedUpdate>) {
    forall i, j :: 0 <= i < j < |s| ==> s[i].version < s[j].version
  }

  /** The versions that occur in `s`. */
  function Versions(s: seq<ParsedUpdate>): set<nat> {
    set x | x in s :: x.version
  }

  // ---------------------------------------------------------------------
  // Stable sort
  // ---------------------------------------------------------------------

  /** Inserts `x` in front of the first candidate whose version is not
      smaller, so `x` precedes every candidate of equal version. */
  function Insert(x: ParsedUpdate, s: seq<ParsedUpdate>): (r: seq<ParsedUpdate>)
    ensures multiset(r) == multiset(s) + multiset{x}
    decreases |s|
  {
    if |s| == 0 || x.version <= s[0].version then [x] + s
    else
      assert s == [s[0]] + s[1..];
      [s[0]] + Insert(x, s[1..])
  }

  /** A lower bound shared by `x` and every element of `s` bounds the
      insertion too. */
  lemma InsertLowerBound(x: ParsedUpdate, s: seq<ParsedUpdate>, v: nat)
    requires v <= x.version
    requires forall y :: y in s ==> v <= y.version
    ensures forall y :: y in Insert(x, s) ==> v <= y.version
  {
    forall y | y in Insert(x, s)
      ensures v <= y.version
    {
      assert y in multiset(Insert(x, s));
    }
  }

  /** A head no later than everything in a sorted tail keeps it sorted. */
  lemma ConsSorted(x: ParsedUpdate, rest: seq<ParsedUpdate>)
    requires SortedByVersion(rest)
    requires forall y :: y in rest ==> x.version <= y.version
    ensures SortedByVersion([x] + rest)
  {
    var r := [x] + rest;
    forall i, j | 0 <= i < j < |r|
      ensures r[i].version <= r[j].version
    {
      assert r[j] == rest[j - 1];
      if i > 0 {
        assert r[i] == rest[i - 1];
      }
    }
  }

  /** Insertion into a sorted sequence keeps it sorted. */
  lemma {:induction false} InsertSorted(x: ParsedUpdate, s: seq<ParsedUpdate>)
    requires SortedByVersion(s)
    ensures SortedByVersion(Insert(x, s))
    decreases |s|
  {
    if |s| == 0 || x.version <= s[0].version {
      ConsSorted(x, s);
    } else {
      var tail := s[1..];
      InsertSorted(x, tail);
      forall y | y in tail
        ensures s[0].version <= y.version
      {
        var j :| 0 <= j < |tail| && tail[j] == y;
        assert s[j + 1] == y;
      }
      InsertLowerBound(x, tail, s[0].version);
      ConsSorted(s[0], Insert(x, tail));
    }
  }

  /** Insertion puts `x` ahead of the candidates that share its version and
      leaves the order among the others alone. */
  lemma {:induction false} InsertWithVersion(x: ParsedUpdate, s: seq<ParsedUpdate>, v: nat)
    ensures WithVersion(Insert(x, s), v) == (if x.version == v then [x] + WithVersion(s, v) else WithVersion(s, v))
    decreases |s|
  {
    if |s| == 0 || x.version <= s[0].version {
      assert ([x] + s)[1..] == s;
    } else {
      InsertWithVersion(x, s[1..], v);
      assert ([s[0]] + Insert(x, s[1..]))[1..] == Insert(x, s[1..]);
    }
  }

  /** `std::stable_sort` by ascending version. */
  function StableSortByVersion(s: seq<ParsedUpdate>): (r: seq<ParsedUpdate>)
    ensures multiset(r) == multiset(s) && |r| == |s|
    ensures SortedByVersion(r)
    decreases |s|
  {
    if |s| == 0 then []
    else
      assert s == [s[0]] + s[1..];
      InsertSorted(s[0], StableSortByVersion(s[1..]));
      Insert(s[0], StableSortByVersion(s[1..]))
  }

  /** Stability: for every version, the candidates carrying it appear in the
      sorted sequence in their original order. */
  lemma {:induction false} StableSortKeepsOrder(s: seq<ParsedUpdate>, v: nat)
    ensures WithVersion(StableSortByVersion(s), v) == WithVersion(s, v)
    decreases |s|
  {
    if |s| > 0 {
      StableSortKeepsOrder(s[1..], v);
      InsertWithVersion(s[0], StableSortByVersion(s[1..]), v);
    }
  }

  // ---------------------------------------------------------------------
  // Removing equal versions
  // ---------------------------------------------------------------------

  /** `std::unique` with "same version": drops every candidate whose version
      equals that of the last one kept. */
  function Unique(s: seq<ParsedUpdate>): (r: seq<ParsedUpdate>)
    ensures |r| <= |s| && (|s| > 0 ==> |r| > 0)
    ensures forall k :: 0 <= k < |r| ==> r[k] in s
    ensures |s| > 0 ==> r[0] == s[0]
    decreases |s|
  {
    if |s| <= 1 then s
    else if s[0].version == s[1].version then
      var r := Unique([s[0]] + s[2..]);
      assert forall y :: y in [s[0]] + s[2..] ==> y in s;
      r
    else
      var rest := Unique(s[1..]);
      [s[0]] + rest
  }

  /** Dropping the second candidate of a sorted sequence keeps it sorted. */
  lemma DropSecondSorted(s: seq<ParsedUpdate>)
    requires |s| >= 2 && SortedByVersion(s)
    ensures SortedByVersion([s[0]] + s[2..])
  {
    var s' := [s[0]] + s[2..];
    forall i, j | 0 <= i < j < |s'|
      ensures s'[i].version <= s'[j].version
    {
      if i == 0 { assert s'[j] == s[j + 1]; }
      else { assert s'[i] == s[i + 1] && s'[j] == s[j + 1]; }
    }
  }

  /** In a sorted sequence nothing after the head is below the second
      element. */
  lemma SortedTailBound(s: seq<ParsedUpdate>, y: ParsedUpdate)
    requires |s| >= 2 && SortedByVersion(s) && y in s[1..]
    ensures s[1].version <= y.version
  {
    var j :| 0 <= j < |s[1..]| && s[1..][j] == y;
    assert s[j + 1] == y;
  }

  /** A head below everything in a strictly ascending tail keeps it
      strictly ascending. */
  lemma ConsAscending(x: ParsedUpdate, rest: seq<ParsedUpdate>)
    requires StrictlyAscending(rest)
    requires forall y :: y in rest ==> x.version < y.version
    ensures StrictlyAscending([x] + rest)
  {
    var r := [x] + rest;
    forall i, j | 0 <= i < j < |r|
      ensures r[i].version < r[j].version
    {
      assert r[j] == rest[j - 1];
      if i > 0 {
        assert r[i] == rest[i - 1];
      }
    }
  }

  /** On a sorted sequence `Unique` leaves strictly ascending versions. */
  lemma {:induction false} UniqueAscending(s: seq<ParsedUpdate>)
    requires SortedByVersion(s)
    ensures StrictlyAscending(Unique(s))
    decreases |s|
  {
    if |s| <= 1 {
    } else if s[0].version == s[1].version {
      DropSecondSorted(s);
      UniqueAscending([s[0]] + s[2..]);
    } else {
      var rest := Unique(s[1..]);
      UniqueAscending(s[1..]);
      forall y | y in rest
        ensures s[0].version < y.version
      {
        SortedTailBound(s, y);
      }
      ConsAscending(s[0], rest);
    }
  }

  /** `Unique` loses no version. */
  lemma {:induction false} UniqueVersions(s: seq<ParsedUpdate>)
    ensures Versions(Unique(s)) == Versions(s)
    decreases |s|
  {
    if |s| <= 1 {
    } else if s[0].version == s[1].version {
      var s' := [s[0]] + s[2..];
      UniqueVersions(s');
      assert s == [s[0], s[1]] + s[2..];
      assert Versions(s') == Versions(s) by {
        assert forall y :: y in s' ==> y in s;
        assert forall y :: y in s ==> y == s[1] || y in s';
      }
    } else {
      UniqueVersions(s[1..]);
      assert s == [s[0]] + s[1..];
      assert Versions(s) == {s[0].version} + Versions(s[1..]);
      assert Versions([s[0]] + Unique(s[1..])) == {s[0].version} + Versions(Unique(s[1..]));
    }
  }

  /** Every element of `r` is the first candidate of `s` with its version. */
  predicate KeepsFirst(r: seq<ParsedUpdate>, s: seq<ParsedUpdate>) {
    forall k :: 0 <= k < |r| ==> |WithVersion(s, r[k].version)| > 0 && r[k] == WithVersion(s, r[k].version)[0]
  }

  /** Dropping a second candidate that repeats the head's version changes no
      "first of its version". */
  lemma KeepsFirstDropSecond(r: seq<ParsedUpdate>, s: seq<ParsedUpdate>)
    requires |s| >= 2 && s[0].version == s[1].version
    requires KeepsFirst(r, [s[0]] + s[2..])
    ensures KeepsFirst(r, s)
  {
    var s' := [s[0]] + s[2..];
    forall k | 0 <= k < |r|
      ensures |WithVersion(s, r[k].version)| > 0 && r[k] == WithVersion(s, r[k].version)[0]
    {
      var v := r[k].version;
      assert s[1..][1..] == s[2..] && s'[1..] == s[2..];
      if v != s[0].version {
        assert WithVersion(s, v) == WithVersion(s[1..], v) == WithVersion(s[2..], v);
        assert WithVersion(s', v) == WithVersion(s[2..], v);
      } else {
        assert WithVersion(s, v)[0] == s[0];
        assert WithVersion(s', v)[0] == s[0];
      }
    }
  }

  /** Putting a candidate of a smaller version in front keeps every "first of
      its version" and makes the new head the first of its own. */
  lemma KeepsFirstCons(rest: seq<ParsedUpdate>, s: seq<ParsedUpdate>)
    requires |s| >= 1 && KeepsFirst(rest, s[1..])
    requires forall y :: y in rest ==> s[0].version < y.version
    ensures KeepsFirst([s[0]] + rest, s)
  {
    var r := [s[0]] + rest;
    forall k | 0 <= k < |r|
      ensures |WithVersion(s, r[k].version)| > 0 && r[k] == WithVersion(s, r[k].version)[0]
    {
      if k > 0 {
        assert r[k] == rest[k - 1] && rest[k - 1] in rest;
        assert WithVersion(s, r[k].version) == WithVersion(s[1..], r[k].version);
      } else {
        assert WithVersion(s, s[0].version) == [s[0]] + WithVersion(s[1..], s[0].version);
      }
    }
  }

  /** On a sorted sequence `Unique` keeps the first candidate of each
      version. */
  lemma {:induction false} UniqueKeepsFirst(s: seq<ParsedUpdate>)
    requires SortedByVersion(s)
    ensures KeepsFirst(Unique(s), s)
    decreases |s|
  {
    if |s| <= 1 {
      if |s| == 1 {
        assert WithVersion(s, s[0].version) == [s[0]] + WithVersion(s[1..], s[0].version);
      }
    } else if s[0].version == s[1].version {
      DropSecondSorted(s);
      UniqueKeepsFirst([s[0]] + s[2..]);
      KeepsFirstDropSecond(Unique(s), s);
    } else {
      var rest := Unique(s[1..]);
      UniqueKeepsFirst(s[1..]);
      forall y | y in rest
        ensures s[0].version < y.version
      {
        SortedTailBound(s, y);
      }
      KeepsFirstCons(rest, s);
    }
  }

  /** Rearranging candidates does not change the versions present. */
  lemma SameMultisetSameVersions(a: seq<ParsedUpdate>, b: seq<ParsedUpdate>)
    requires multiset(a) == multiset(b)
    ensures Versions(a) == Versions(b)
  {
    assert forall y :: y in a <==> y in multiset(b);
  }

  /** The commit step's ordering: sort, then drop equal versions. */
  function DedupeByVersion(s: seq<ParsedUpdate>): (r: seq<ParsedUpdate>)
    ensures |r| <= |s| && (|s| > 0 ==> |r| > 0)
    ensures forall k :: 0 <= k < |r| ==> r[k] in s
  {
    var sorted := StableSortByVersion(s);
    assert forall y :: y in sorted ==> y in multiset(s);
    Unique(sorted)
  }

  /** After the commit step a title's candidates have strictly ascending,
      hence pairwise distinct, versions; every version found is still there;
      and each survivor is the candidate of its version that was discovered
      first. */
  lemma DedupeKeepsEarliestPerVersion(s: seq<ParsedUpdate>)
    ensures var r := DedupeByVersion(s);
            StrictlyAscending(r) && Versions(r) == Versions(s) && KeepsFirst(r, s)
  {
    var sorted := StableSortByVersion(s);
    var r := Unique(sorted);
    UniqueAscending(sorted);
    UniqueVersions(sorted);
    UniqueKeepsFirst(sorted);
    SameMultisetSameVersions(sorted, s);
    forall k | 0 <= k < |r|
      ensures |WithVersion(s, r[k].version)| > 0 && r[k] == WithVersion(s, r[k].version)[0]
    {
      StableSortKeepsOrder(s, r[k].version);
    }
  }

  /** The last survivor carries the highest version discovered. */
  lemma DedupeLastIsLatest(s: seq<ParsedUpdate>)
    requires |s| > 0
    ensures var r := DedupeByVersion(s);
            forall x :: x in s ==> x.version <= r[|r| - 1].version
  {
    var r := DedupeByVersion(s);
    DedupeKeepsEarliestPerVersion(s);
    forall x | x in s
      ensures x.version <= r[|r| - 1].version
    {
      assert x.version in Versions(r);
      var y :| y in r && y.version == x.version;
      var k :| 0 <= k < |r| && r[k] == y;
      if k < |r| - 1 {
        assert r[k].version < r[|r| - 1].version;
      }
    }
  }
}
