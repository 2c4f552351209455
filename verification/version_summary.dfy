/** `CountVersionTypes` and `SortPackagesByVersionType` of
    `pkg/utils/version`: tallying and ordering the comparison table the
    registry fetch produces. A Go map has no iteration order, so both loops
    pick the next key arbitrarily, and the contracts hold for every order. */
module VersionSummary {
  import opened Version

  /** One row of the comparison table (`VersionComparisonItem`). The
      floating-point `HoursSinceLasRelease` is not modelled. */
  datatype VersionComparisonItem = VersionComparisonItem(
    current: string,
    latest: string,
    versionType: UpgradeType,
    shouldUpdate: bool,
    homepage: string,
    repositoryUrl: string,
    versionPrefix: string,
    isDev: bool)

  /** The comparison table, keyed by package name. */
  type Comparison = map<string, VersionComparisonItem>

  /** The names whose row has type `t`. */
  function NamesOfType(m: Comparison, t: UpgradeType): set<string> {
    set k | k in m && m[k].versionType == t
  }

  /** How many rows have type `t`. */
  function TypeCount(m: Comparison, t: UpgradeType): nat {
    |NamesOfType(m, t)|
  }

  /** The rows among `done` whose type is `t`. */
  function DoneOfType(m: Comparison, done: set<string>, t: UpgradeType): set<string> {
    set k | k in done && k in m && m[k].versionType == t
  }

  /** Adding one more key to `done` adds it to the rows of its own type
      only. */
  lemma DoneOfTypeStep(m: Comparison, done: set<string>, k: string, t: UpgradeType)
    requires k in m && k !in done
    ensures |DoneOfType(m, done + {k}, t)|
      == |DoneOfType(m, done, t)| + (if m[k].versionType == t then 1 else 0)
  {
    if m[k].versionType == t {
      assert DoneOfType(m, done + {k}, t) == DoneOfType(m, done, t) + {k};
    } else {
      assert DoneOfType(m, done + {k}, t) == DoneOfType(m, done, t);
    }
  }

  /** The four counters of `CountVersionTypes`. */
  datatype Counts = Counts(major: nat, minor: nat, patch: nat, total: nat)

  /** One iteration of the counting loop: the switch on the row's type, then
      the total. */
  function Tally(c: Counts, t: UpgradeType): Counts {
    var c' := match t
      case Major => c.(major := c.major + 1)
      case Minor => c.(minor := c.minor + 1)
      case Patch => c.(patch := c.patch + 1)
      case NoneT => c;
    c'.(total := c'.total + 1)
  }

  /** `c` holds the counts of the rows named in `done`. */
  ghost predicate CountsOf(m: Comparison, done: set<string>, c: Counts) {
    && c.major == |DoneOfType(m, done, Major)|
    && c.minor == |DoneOfType(m, done, Minor)|
    && c.patch == |DoneOfType(m, done, Patch)|
    && c.total == |done|
  }

  /** Tallying one more row keeps the counters exact. */
  lemma TallyStep(m: Comparison, done: set<string>, k: string, c: Counts)
    requires k in m && k !in done
    requires CountsOf(m, done, c)
    ensures CountsOf(m, done + {k}, Tally(c, m[k].versionType))
  {
    DoneOfTypeStep(m, done, k, Major);
    DoneOfTypeStep(m, done, k, Minor);
    DoneOfTypeStep(m, done, k, Patch);
  }

  /** `CountVersionTypes`: one counter per type that is major, minor or
      patch, and the total number of rows, whatever order the keys come in. */
  method CountVersionTypes(m: Comparison) returns (majorCount: nat, minorCount: nat, patchCount: nat, totalCount: nat)
    ensures majorCount == TypeCount(m, Major)
    ensures minorCount == TypeCount(m, Minor)
    ensures patchCount == TypeCount(m, Patch)
    ensures totalCount == |m|
  {
    var c := Counts(0, 0, 0, 0);
    var remaining := m.Keys;
    ghost var done: set<string> := {};
    NoneDone(m);
    while remaining != {}
      invariant done !! remaining && done + remaining == m.Keys
      invariant CountsOf(m, done, c)
      decreases |remaining|
    {
      var k :| k in remaining;
      TallyStep(m, done, k, c);
      c := Tally(c, m[k].versionType);
      done, remaining := done + {k}, remaining - {k};
    }
    assert done == m.Keys;
    AllDone(m, c);
    majorCount, minorCount, patchCount, totalCount := c.major, c.minor, c.patch, c.total;
  }

  /** Before the loop nothing is counted. */
  lemma NoneDone(m: Comparison)
    ensures CountsOf(m, {}, Counts(0, 0, 0, 0))
  {
    assert DoneOfType(m, {}, Major) == {};
    assert DoneOfType(m, {}, Minor) == {};
    assert DoneOfType(m, {}, Patch) == {};
  }

  /** Once every key is done, the counters are the per-type totals. */
  lemma AllDone(m: Comparison, c: Counts)
    requires CountsOf(m, m.Keys, c)
    ensures c.major == TypeCount(m, Major) && c.minor == TypeCount(m, Minor)
    ensures c.patch == TypeCount(m, Patch) && c.total == |m|
  {
    assert DoneOfType(m, m.Keys, Major) == NamesOfType(m, Major);
    assert DoneOfType(m, m.Keys, Minor) == NamesOfType(m, Minor);
    assert DoneOfType(m, m.Keys, Patch) == NamesOfType(m, Patch);
  }

  /** Every row has exactly one of the four types. */
  lemma NamesPartition(m: Comparison)
    ensures NamesOfType(m, Major) !! NamesOfType(m, Minor)
    ensures NamesOfType(m, Major) !! NamesOfType(m, Patch)
    ensures NamesOfType(m, Minor) !! NamesOfType(m, Patch)
    ensures (NamesOfType(m, Major) + NamesOfType(m, Minor) + NamesOfType(m, Patch)) !! NamesOfType(m, NoneT)
    ensures NamesOfType(m, Major) + NamesOfType(m, Minor) + NamesOfType(m, Patch) + NamesOfType(m, NoneT) == m.Keys
  {
    forall k | k in m ensures k in NamesOfType(m, m[k].versionType) {
    }
  }

  /** Cardinality of a union of four disjoint sets. */
  lemma DisjointUnionSize(a: set<string>, b: set<string>, c: set<string>, n: set<string>)
    requires a !! b && a !! c && b !! c && (a + b + c) !! n
    ensures |a + b + c + n| == |a| + |b| + |c| + |n|
  {
    assert |a + b| == |a| + |b|;
    assert |a + b + c| == |a + b| + |c|;
  }

  /** The three counted types never exceed the total, and fill it exactly
      when no row has type "none". */
  lemma CountsCover(m: Comparison)
    ensures TypeCount(m, Major) + TypeCount(m, Minor) + TypeCount(m, Patch) <= |m|
    ensures TypeCount(m, Major) + TypeCount(m, Minor) + TypeCount(m, Patch) == |m|
        <==> forall k :: k in m ==> m[k].versionType != NoneT
  {
    NamesPartition(m);
    var n := NamesOfType(m, NoneT);
    DisjointUnionSize(NamesOfType(m, Major), NamesOfType(m, Minor), NamesOfType(m, Patch), n);
    assert |m.Keys| == |m|;
    if forall k :: k in m ==> m[k].versionType != NoneT {
      assert n == {};
    } else {
      var k :| k in m && m[k].versionType == NoneT;
      assert k in n;
    }
  }

  /** An empty table counts zero everywhere. */
  lemma CountsEmpty(m: Comparison)
    requires m == map[]
    ensures TypeCount(m, Major) == 0 && TypeCount(m, Minor) == 0 && TypeCount(m, Patch) == 0 && |m| == 0
  {
    assert NamesOfType(m, Major) == {};
    assert NamesOfType(m, Minor) == {};
    assert NamesOfType(m, Patch) == {};
  }

  /** `PackageVersion`: a table row paired with its package name. */
  datatype PackageVersion = PackageVersion(name: string, item: VersionComparisonItem)

  /** `getVersionTypePriority`: patch first, then minor, then major, then
      everything else. */
  function Priority(t: UpgradeType): nat {
    match t
    case Patch => 1
    case Minor => 2
    case Major => 3
    case NoneT => 4
  }

  /** The priority of a row. */
  function Rank(p: PackageVersion): nat {
    Priority(p.item.versionType)
  }

  /** Ranks never decrease along `ps`. */
  predicate SortedByPriority(ps: seq<PackageVersion>) {
    forall i, j :: 0 <= i < j < |ps| ==> Rank(ps[i]) <= Rank(ps[j])
  }

  /** No package name occurs twice in `ps`. */
  predicate DistinctNames(ps: seq<PackageVersion>) {
    forall i, j :: 0 <= i < j < |ps| ==> ps[i].name != ps[j].name
  }

  /** `ps` holds exactly the rows of `m` named in `keys`, each once. */
  ghost predicate ListsKeys(ps: seq<PackageVersion>, m: Comparison, keys: set<string>) {
    && DistinctNames(ps)
    && |ps| == |keys|
    && forall x :: x in ps <==> x.name in keys && x.name in m && m[x.name] == x.item
  }

  /** The rows of `ps` with rank `r`, in their original order. */
  function Bucket(ps: seq<PackageVersion>, r: nat): seq<PackageVersion>
    decreases |ps|
  {
    if |ps| == 0 then []
    else (if Rank(ps[0]) == r then [ps[0]] else []) + Bucket(ps[1..], r)
  }

  /** A bucket holds exactly the rows of its rank. */
  lemma {:induction false} BucketMembers(ps: seq<PackageVersion>, r: nat)
    ensures forall x :: x in Bucket(ps, r) <==> x in ps && Rank(x) == r
    decreases |ps|
  {
    if |ps| > 0 {
      BucketMembers(ps[1..], r);
      assert ps == [ps[0]] + ps[1..];
    }
  }

  /** A bucket of a list without repeated names has none either. */
  lemma {:induction false} BucketDistinct(ps: seq<PackageVersion>, r: nat)
    requires DistinctNames(ps)
    ensures DistinctNames(Bucket(ps, r))
    decreases |ps|
  {
    if |ps| > 0 {
      var tail := ps[1..];
      assert DistinctNames(tail) by {
        forall i, j | 0 <= i < j < |tail| ensures tail[i].name != tail[j].name {
          assert tail[i] == ps[i + 1] && tail[j] == ps[j + 1];
        }
      }
      BucketDistinct(tail, r);
      BucketMembers(tail, r);
      var b := Bucket(tail, r);
      if Rank(ps[0]) == r {
        forall x | x in b ensures x.name != ps[0].name {
          var j :| 0 <= j < |tail| && tail[j] == x;
          assert tail[j] == ps[j + 1];
        }
        var rb := Bucket(ps, r);
        assert rb == [ps[0]] + b;
        forall i, j | 0 <= i < j < |rb| ensures rb[i].name != rb[j].name {
          if i == 0 {
            assert rb[j] == b[j - 1] && rb[j] in b;
          } else {
            assert rb[i] == b[i - 1] && rb[j] == b[j - 1];
          }
        }
      } else {
        assert Bucket(ps, r) == b;
      }
    }
  }

  /** The four buckets together are as long as the list. */
  lemma {:induction false} BucketSizes(ps: seq<PackageVersion>)
    ensures |Bucket(ps, 1)| + |Bucket(ps, 2)| + |Bucket(ps, 3)| + |Bucket(ps, 4)| == |ps|
    decreases |ps|
  {
    if |ps| > 0 {
      BucketSizes(ps[1..]);
    }
  }

  /** `sort.Slice` with the priority comparison, resolved by concatenating
      the buckets of ranks one to four. `sort.Slice` is not stable, so only
      the rank order and the contents are claimed of it. */
  function SortByPriority(ps: seq<PackageVersion>): seq<PackageVersion> {
    Bucket(ps, 1) + Bucket(ps, 2) + Bucket(ps, 3) + Bucket(ps, 4)
  }

  /** The sorted list is ordered by rank. */
  lemma SortByPrioritySorted(ps: seq<PackageVersion>)
    ensures SortedByPriority(SortByPriority(ps))
  {
    var b1, b2, b3, b4 := Bucket(ps, 1), Bucket(ps, 2), Bucket(ps, 3), Bucket(ps, 4);
    BucketMembers(ps, 1);
    BucketMembers(ps, 2);
    BucketMembers(ps, 3);
    BucketMembers(ps, 4);
    var s := SortByPriority(ps);
    forall i | 0 <= i < |s|
      ensures Rank(s[i]) == (if i < |b1| then 1 else if i < |b1| + |b2| then 2
                             else if i < |b1| + |b2| + |b3| then 3 else 4)
    {
      if i < |b1| {
        assert s[i] == b1[i] && s[i] in b1;
      } else if i < |b1| + |b2| {
        assert s[i] == b2[i - |b1|] && s[i] in b2;
      } else if i < |b1| + |b2| + |b3| {
        assert s[i] == b3[i - |b1| - |b2|] && s[i] in b3;
      } else {
        assert s[i] == b4[i - |b1| - |b2| - |b3|] && s[i] in b4;
      }
    }
  }

  /** Every rank is one of the four buckets. */
  lemma RankRange(x: PackageVersion)
    ensures 1 <= Rank(x) <= 4
  {
  }

  /** Sorting keeps exactly the rows it was given, each once. */
  lemma SortByPriorityPermutes(ps: seq<PackageVersion>)
    requires DistinctNames(ps)
    ensures DistinctNames(SortByPriority(ps))
    ensures |SortByPriority(ps)| == |ps|
    ensures forall x :: x in SortByPriority(ps) <==> x in ps
  {
    var b1, b2, b3, b4 := Bucket(ps, 1), Bucket(ps, 2), Bucket(ps, 3), Bucket(ps, 4);
    BucketSizes(ps);
    BucketMembers(ps, 1);
    BucketMembers(ps, 2);
    BucketMembers(ps, 3);
    BucketMembers(ps, 4);
    BucketDistinct(ps, 1);
    BucketDistinct(ps, 2);
    BucketDistinct(ps, 3);
    BucketDistinct(ps, 4);
    forall x | x in ps ensures x in SortByPriority(ps) {
      RankRange(x);
    }
    BucketsApart(ps, 1, 2);
    BucketsApart(ps, 1, 3);
    BucketsApart(ps, 2, 3);
    BucketsApart(ps, 1, 4);
    BucketsApart(ps, 2, 4);
    BucketsApart(ps, 3, 4);
    ConcatDistinct(b1, b2);
    ConcatDistinct(b1 + b2, b3);
    ConcatDistinct(b1 + b2 + b3, b4);
  }

  /** In a list without repeated names, a name identifies its row. */
  lemma SameNameSameRow(ps: seq<PackageVersion>, a: PackageVersion, b: PackageVersion)
    requires DistinctNames(ps)
    requires a in ps && b in ps && a.name == b.name
    ensures a == b
  {
    var i :| 0 <= i < |ps| && ps[i] == a;
    var j :| 0 <= j < |ps| && ps[j] == b;
    assert ps[i].name == ps[j].name;
  }

  /** Two different buckets share no name. */
  lemma BucketsApart(ps: seq<PackageVersion>, r: nat, q: nat)
    requires DistinctNames(ps) && r != q
    ensures forall a, b :: a in Bucket(ps, r) && b in Bucket(ps, q) ==> a.name != b.name
  {
    BucketMembers(ps, r);
    BucketMembers(ps, q);
    forall a, b | a in Bucket(ps, r) && b in Bucket(ps, q) ensures a.name != b.name {
      if a.name == b.name {
        SameNameSameRow(ps, a, b);
      }
    }
  }

  /** Joining two name-disjoint lists without repeats repeats nothing. */
  lemma ConcatDistinct(x: seq<PackageVersion>, y: seq<PackageVersion>)
    requires DistinctNames(x) && DistinctNames(y)
    requires forall a, b :: a in x && b in y ==> a.name != b.name
    ensures DistinctNames(x + y)
  {
    var s := x + y;
    forall i, j | 0 <= i < j < |s| ensures s[i].name != s[j].name {
      if j < |x| {
        assert s[i] == x[i] && s[j] == x[j];
      } else if i >= |x| {
        assert s[i] == y[i - |x|] && s[j] == y[j - |x|];
      } else {
        assert s[i] == x[i] && s[i] in x;
        assert s[j] == y[j - |x|] && s[j] in y;
      }
    }
  }

  /** Appending a row under a fresh name extends the listed keys by it. */
  lemma ListsKeysStep(ps: seq<PackageVersion>, m: Comparison, keys: set<string>, k: string)
    requires ListsKeys(ps, m, keys)
    requires k in m && k !in keys
    ensures ListsKeys(ps + [PackageVersion(k, m[k])], m, keys + {k})
  {
    var ps' := ps + [PackageVersion(k, m[k])];
    forall i, j | 0 <= i < j < |ps'| ensures ps'[i].name != ps'[j].name {
      if j == |ps| {
        assert ps'[i] == ps[i] && ps[i] in ps;
      } else {
        assert ps'[i] == ps[i] && ps'[j] == ps[j];
      }
    }
  }

  /** `SortPackagesByVersionType`: every row of the table, each once under
      its own name, patch updates first, then minor, then major, then the
      rest. */
  method SortPackagesByVersionType(m: Comparison) returns (packages: seq<PackageVersion>)
    ensures |packages| == |m|
    ensures DistinctNames(packages)
    ensures forall x :: x in packages <==> x.name in m && m[x.name] == x.item
    ensures SortedByPriority(packages)
  {
    var list: seq<PackageVersion> := [];
    var remaining := m.Keys;
    ghost var done: set<string> := {};
    while remaining != {}
      invariant done !! remaining && done + remaining == m.Keys
      invariant ListsKeys(list, m, done)
      decreases |remaining|
    {
      var k :| k in remaining;
      ListsKeysStep(list, m, done, k);
      list := list + [PackageVersion(k, m[k])];
      done, remaining := done + {k}, remaining - {k};
    }
    assert done == m.Keys;
    SortByPriorityPermutes(list);
    SortByPrioritySorted(list);
    packages := SortByPriority(list);
  }
}
