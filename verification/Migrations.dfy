/** The migration list, its validator, and the ledger protocol that several booting instances run at once. */
module Migrations {
  import opened Wrappers

  /** Up is absent, or takes the schema to its successor, or fails on it. */
  datatype Migration<!S> = Migration(version: int, name: string, up: Option<S -> Option<S>>)

  datatype Verdict =
    | Accepted
    | BadVersion(version: int)
    | MissingUp(version: int)
    | Duplicate(version: int)
    | OutOfOrder(version: int)

  function Versions<S>(list: seq<Migration<S>>): (r: seq<int>)
    ensures |r| == |list| && forall i :: 0 <= i < |list| ==> r[i] == list[i].version
  {
    seq(|list|, i requires 0 <= i < |list| => list[i].version)
  }

  /** What the list has to satisfy: versions positive and strictly ascending, every Up present. */
  ghost predicate WellFormed<S>(list: seq<Migration<S>>) {
    && (forall i :: 0 <= i < |list| ==> list[i].version > 0 && list[i].up.Some?)
    && (forall i, j :: 0 <= i < j < |list| ==> list[i].version < list[j].version)
  }

  // ----- The validator ---------------------------------------------------

  ghost predicate Ascending(vs: seq<int>) {
    forall i, j :: 0 <= i < j < |vs| ==> vs[i] <= vs[j]
  }

  /** Any result a sort by version may leave; entries of equal version may have been swapped. */
  ghost predicate IsSortOf<S>(list: seq<Migration<S>>, sorted: seq<Migration<S>>) {
    multiset(sorted) == multiset(list) && Ascending(Versions(sorted))
  }

  lemma BagWithout<T>(b: seq<T>, k: nat)
    requires k < |b|
    ensures multiset(b) == multiset(b[..k] + b[k + 1..]) + multiset{b[k]}
  {
    assert b == b[..k] + [b[k]] + b[k + 1..];
  }

  lemma Cancel<T>(x: multiset<T>, y: multiset<T>, t: T)
    requires x + multiset{t} == y + multiset{t}
    ensures x == y
  {
    assert x == (x + multiset{t}) - multiset{t};
    assert y == (y + multiset{t}) - multiset{t};
  }

  lemma SameLength<S>(a: seq<Migration<S>>, b: seq<Migration<S>>)
    requires multiset(a) == multiset(b)
    ensures |a| == |b|
  {
    assert |multiset(a)| == |a| && |multiset(b)| == |b|;
  }

  /** Taking one common entry out of two lists with the same entries. */
  lemma MatchOne<T>(a: seq<T>, b: seq<T>) returns (k: nat)
    requires a != [] && multiset(a) == multiset(b)
    ensures k < |b| && b[k] == a[0] && multiset(a[1..]) == multiset(b[..k] + b[k + 1..])
  {
    var x := a[0];
    assert x in multiset(b);
    k :| 0 <= k < |b| && b[k] == x;
    BagWithout(b, k);
    assert multiset(a) == multiset(a[1..]) + multiset{x} by { assert a == [x] + a[1..]; }
    Cancel(multiset(a[1..]), multiset(b[..k] + b[k + 1..]), x);
  }

  lemma VersionBagTail<S>(a: seq<Migration<S>>)
    requires a != []
    ensures multiset(Versions(a)) == multiset(Versions(a[1..])) + multiset{a[0].version}
  {
    var vs := Versions(a);
    assert Versions(a[1..]) == vs[1..];
    assert vs == [vs[0]] + vs[1..];
  }

  lemma VersionBagWithout<S>(b: seq<Migration<S>>, k: nat)
    requires k < |b|
    ensures multiset(Versions(b)) == multiset(Versions(b[..k] + b[k + 1..])) + multiset{b[k].version}
  {
    var vs := Versions(b);
    assert Versions(b[..k] + b[k + 1..]) == vs[..k] + vs[k + 1..];
    BagWithout(vs, k);
  }

  lemma {:induction false} SameVersionBag<S>(a: seq<Migration<S>>, b: seq<Migration<S>>)
    requires multiset(a) == multiset(b)
    ensures multiset(Versions(a)) == multiset(Versions(b))
    decreases |a|
  {
    SameLength(a, b);
    if a != [] {
      var k := MatchOne(a, b);
      var rest := b[..k] + b[k + 1..];
      SameVersionBag(a[1..], rest);
      VersionBagTail(a);
      VersionBagWithout(b, k);
    }
  }

  lemma Elsewhere<S>(a: seq<Migration<S>>, b: seq<Migration<S>>, i: nat) returns (k: nat)
    requires multiset(a) == multiset(b) && i < |a|
    ensures k < |b| && b[k] == a[i]
  {
    assert a[i] in multiset(b);
    k :| 0 <= k < |b| && b[k] == a[i];
  }

  /** The list has the defect a verdict names. */
  ghost predicate Justified<S>(v: Verdict, list: seq<Migration<S>>) {
    match v
    case Accepted => true
    case BadVersion(n) => n <= 0 && exists i :: 0 <= i < |list| && list[i].version == n
    case MissingUp(n) => exists i :: 0 <= i < |list| && list[i].version == n && list[i].up.None?
    case Duplicate(n) => exists i, j :: 0 <= i < j < |list| && list[i].version == list[j].version == n
    case OutOfOrder(n) => exists i, j :: 0 <= i < j < |list| && list[i].version > list[j].version == n
  }

  lemma ComplaintRefutes<S>(v: Verdict, list: seq<Migration<S>>)
    requires Justified(v, list) && !v.Accepted?
    ensures !WellFormed(list)
  {
  }

  lemma EntryShows<S>(list: seq<Migration<S>>, sorted: seq<Migration<S>>, i: nat)
    requires IsSortOf(list, sorted) && i < |sorted|
    ensures sorted[i].version <= 0 ==> Justified(BadVersion(sorted[i].version), list)
    ensures sorted[i].up.None? ==> Justified(MissingUp(sorted[i].version), list)
  {
    var k := Elsewhere(sorted, list, i);
    assert list[k].version == sorted[i].version;
  }

  /** The first n entries of the sorted copy drew no complaint. */
  ghost predicate Passed<S>(list: seq<Migration<S>>, sorted: seq<Migration<S>>, n: nat) {
    && n <= |sorted| == |list|
    && (forall i :: 0 <= i < n ==> sorted[i].version > 0 && sorted[i].up.Some? && list[i].version == sorted[i].version)
    && (forall i :: 0 < i < n ==> sorted[i - 1].version != sorted[i].version)
  }

  lemma PassedIsPositive<S>(list: seq<Migration<S>>, sorted: seq<Migration<S>>, i: nat)
    requires IsSortOf(list, sorted) && Passed(list, sorted, |sorted|) && i < |list|
    ensures list[i].version > 0 && list[i].up.Some?
  {
    var k := Elsewhere(list, sorted, i);
    assert sorted[k].up.Some?;
  }

  lemma PassedIsStrict<S>(list: seq<Migration<S>>, sorted: seq<Migration<S>>, i: nat, j: nat)
    requires Ascending(Versions(sorted)) && Passed(list, sorted, |sorted|) && i < j < |list|
    ensures list[i].version < list[j].version
  {
    var vs := Versions(sorted);
    assert vs[j - 1] <= vs[j];
    assert i < j - 1 ==> vs[i] <= vs[j - 1];
    assert sorted[j - 1].version != sorted[j].version;
  }

  lemma PassedIsWellFormed<S>(list: seq<Migration<S>>, sorted: seq<Migration<S>>)
    requires IsSortOf(list, sorted) && Passed(list, sorted, |sorted|)
    ensures WellFormed(list)
  {
    forall i | 0 <= i < |list| ensures list[i].version > 0 && list[i].up.Some? {
      PassedIsPositive(list, sorted, i);
    }
    forall i, j | 0 <= i < j < |list| ensures list[i].version < list[j].version {
      PassedIsStrict(list, sorted, i, j);
    }
  }

  /** What is left of two sequences with the same entries after a common prefix has the same entries. */
  lemma SameRest(p: seq<int>, q: seq<int>, i: nat)
    requires multiset(p) == multiset(q) && i <= |p| == |q| && p[..i] == q[..i]
    ensures multiset(p[i..]) == multiset(q[i..])
  {
    assert p == p[..i] + p[i..] && q == q[..i] + q[i..];
    assert multiset(p[i..]) == multiset(p) - multiset(p[..i]);
    assert multiset(q[i..]) == multiset(q) - multiset(q[..i]);
  }

  lemma FoundInRest(p: seq<int>, i: nat, v: int) returns (k: nat)
    requires i <= |p| && v in multiset(p[i..])
    ensures i <= k < |p| && p[k] == v
  {
    var j :| 0 <= j < |p[i..]| && p[i..][j] == v;
    k := i + j;
  }

  /** Where a list first differs from its sorted copy, a larger version stands before the sorted one. */
  lemma InversionShows<S>(list: seq<Migration<S>>, sorted: seq<Migration<S>>, i: nat)
    requires IsSortOf(list, sorted) && Passed(list, sorted, i) && i < |sorted| && list[i].version != sorted[i].version
    ensures Justified(OutOfOrder(sorted[i].version), list)
  {
    var p, q := Versions(list), Versions(sorted);
    SameVersionBag(list, sorted);
    assert p[..i] == q[..i];
    SameRest(p, q, i);
    assert q[i] in q[i..] && p[i] in p[i..];
    var j := FoundInRest(p, i, q[i]);
    var k := FoundInRest(q, i, p[i]);
    assert list[i].version > list[j].version == sorted[i].version;
  }

  lemma TwiceMeansTwoPlaces(vs: seq<int>, v: int) returns (j: nat, k: nat)
    requires multiset(vs)[v] >= 2
    ensures j < k < |vs| && vs[j] == vs[k] == v
  {
    assert v in multiset(vs);
    j :| 0 <= j < |vs| && vs[j] == v;
    assert vs == vs[..j] + [v] + vs[j + 1..];
    if v in vs[..j] {
      k := j;
      j :| 0 <= j < k && vs[j] == v;
    } else {
      assert v in multiset(vs[j + 1..]);
      k :| j < k < |vs| && vs[k] == v;
    }
  }

  /** Equal neighbours in the sorted copy are two entries of the list. */
  lemma DuplicateShows<S>(list: seq<Migration<S>>, sorted: seq<Migration<S>>, i: nat)
    requires IsSortOf(list, sorted) && 0 < i < |sorted| && sorted[i - 1].version == sorted[i].version
    ensures Justified(Duplicate(sorted[i].version), list)
  {
    SameVersionBag(list, sorted);
    var v := sorted[i].version;
    var vs := Versions(sorted);
    assert vs == vs[..i - 1] + [v] + [v] + vs[i + 1..];
    assert multiset(vs)[v] >= 2;
    var j, k := TwiceMeansTwoPlaces(Versions(list), v);
    assert list[j].version == list[k].version == v;
  }

  /** What is wrong at a position of the sorted copy; of several defects the first of these is named. */
  function ComplaintAt<S>(list: seq<Migration<S>>, sorted: seq<Migration<S>>, i: nat): Verdict
    requires i < |sorted| == |list|
  {
    var v := sorted[i].version;
    if v < 1 then BadVersion(v)
    else if sorted[i].up.None? then MissingUp(v)
    else if i >= 1 && sorted[i - 1].version == v then Duplicate(v)
    else if list[i].version != v then OutOfOrder(v)
    else Accepted
  }

  /** The complaint is the one at the first position of the sorted copy that has any. */
  ghost predicate IsFirst<S>(v: Verdict, list: seq<Migration<S>>, sorted: seq<Migration<S>>) {
    && |sorted| == |list|
    && exists i ::
         && 0 <= i < |sorted| && v == ComplaintAt(list, sorted, i)
         && forall j :: 0 <= j < i ==> ComplaintAt(list, sorted, j) == Accepted
  }

  lemma FirstAt<S>(list: seq<Migration<S>>, sorted: seq<Migration<S>>, i: nat)
    requires i < |sorted| == |list| && forall j :: 0 <= j < i ==> ComplaintAt(list, sorted, j) == Accepted
    ensures IsFirst(ComplaintAt(list, sorted, i), list, sorted)
  {
  }

  method FirstComplaint<S>(list: seq<Migration<S>>, sorted: seq<Migration<S>>) returns (v: Verdict)
    requires IsSortOf(list, sorted)
    ensures v.Accepted? ==> WellFormed(list)
    ensures Justified(v, list) && (!v.Accepted? ==> IsFirst(v, list, sorted))
  {
    SameLength(list, sorted);
    for i := 0 to |sorted|
      invariant Passed(list, sorted, i)
      invariant forall j :: 0 <= j < i ==> ComplaintAt(list, sorted, j) == Accepted
    {
      var m := sorted[i];
      EntryShows(list, sorted, i);
      FirstAt(list, sorted, i);
      if m.version <= 0 {
        return BadVersion(m.version);
      }
      if m.up.None? {
        return MissingUp(m.version);
      }
      if i > 0 && sorted[i - 1].version == m.version {
        DuplicateShows(list, sorted, i);
        return Duplicate(m.version);
      }
      if list[i].version != m.version {
        InversionShows(list, sorted, i);
        return OutOfOrder(m.version);
      }
    }
    PassedIsWellFormed(list, sorted);
    v := Accepted;
  }

  /**
   Accepts exactly the well-formed lists, whatever the sort did with ties; and
   each complaint names a defect the list really has.
   */
  method ValidateMigrations<S>(list: seq<Migration<S>>, sorted: seq<Migration<S>>) returns (v: Verdict)
    requires IsSortOf(list, sorted)
    ensures v.Accepted? <==> WellFormed(list)
    ensures Justified(v, list) && (!v.Accepted? ==> IsFirst(v, list, sorted))
  {
    v := FirstComplaint(list, sorted);
    if !v.Accepted? {
      ComplaintRefutes(v, list);
    }
  }
}
