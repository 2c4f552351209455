/** The version classifier of `pkg/utils/version`: splitting a declared range
    into its operator prefix and `major.minor.patch`, reading the three
    numbers, and classifying the step from a current to a latest version.

    The two regular expressions are modelled as Go's `regexp` runs them:
    the leftmost start position at which the pattern matches, with greedy
    `\d+` runs (which never need to backtrack here, since each run is
    followed by a `.` or ends the match). */
module Version {
  import opened Wrappers
  import opened Strings
  import opened Strconv

  /** `UpgradeType`: which component differs first (`NoneT` is "none"). */
  datatype UpgradeType = Major | Minor | Patch | NoneT

  /** `UpgradeDirection`; the source's `None` ("none") is `NoneD` here,
      since `None` already names the empty `Option`. */
  datatype UpgradeDirection = Upgrade | Downgrade | NoneD

  /** The pair `GetVersionUpdateType` returns. */
  datatype UpdateType = UpdateType(kind: UpgradeType, direction: UpgradeDirection)

  /** The pair `GetCleanVersion` returns: the range operator before the
      version, and the `a.b.c` text itself. */
  datatype CleanVersion = CleanVersion(prefix: string, version: string)

  /** The three digit runs of one `\d+\.\d+\.\d+` match. */
  datatype TripleMatch = TripleMatch(major: string, minor: string, patch: string) {
    function Text(): string {
      major + "." + minor + "." + patch
    }
  }

  /** `v` is exactly `a.b.c` with `a`, `b`, `c` non-empty digit runs. */
  predicate Spells(v: string, a: string, b: string, c: string) {
    IsDigits(a) && IsDigits(b) && IsDigits(c) && v == a + "." + b + "." + c
  }

  /** `v` has the shape digits.digits.digits. */
  ghost predicate IsTriple(v: string) {
    exists a, b, c :: Spells(v, a, b, c)
  }

  /** The text `a.b.c`, with `a`, `b`, `c` digit runs, starts at position
      `p` of `s`. */
  predicate SpelledAt(s: string, p: nat, a: string, b: string, c: string)
    requires p <= |s|
  {
    IsDigits(a) && IsDigits(b) && IsDigits(c) && HasPrefix(s[p..], a + "." + b + "." + c)
  }

  /** Some `digits.digits.digits` text starts at position `p` of `s`. */
  ghost predicate TripleStartsAt(s: string, p: nat)
    requires p <= |s|
  {
    exists a, b, c :: SpelledAt(s, p, a, b, c)
  }

  /** Some `digits.digits.digits` text occurs in `s`. */
  ghost predicate HasTriple(s: string) {
    exists p :: 0 <= p <= |s| && TripleStartsAt(s, p)
  }

  /** No `digits.digits.digits` text starts before position `k`. */
  ghost predicate NoTripleBefore(s: string, k: nat)
    requires k <= |s| + 1
  {
    forall p :: 0 <= p < k && p <= |s| ==> !TripleStartsAt(s, p)
  }

  // ---------------------------------------------------------------------
  // Character-level recognisers for the two regular expressions.

  /** Length of the digit run starting at `i` (greedy `\d*`): it stops at
      the end or at a non-digit. */
  function DigitRun(s: string, i: nat): (n: nat)
    requires i <= |s|
    ensures i + n <= |s|
    ensures i + n == |s| || !IsDigit(s[i + n])
    decreases |s| - i
  {
    if i < |s| && IsDigit(s[i]) then 1 + DigitRun(s, i + 1) else 0
  }

  /** Everything `DigitRun` covers is a digit. */
  lemma {:induction false} DigitRunDigits(s: string, i: nat)
    requires i <= |s|
    ensures forall k :: i <= k < i + DigitRun(s, i) ==> IsDigit(s[k])
    decreases |s| - i
  {
    if i < |s| && IsDigit(s[i]) {
      DigitRunDigits(s, i + 1);
    }
  }

  /** Length of the non-digit run starting at `i` (greedy `[^0-9]*`): it
      stops at the end or at a digit. */
  function NonDigitRun(s: string, i: nat): (n: nat)
    requires i <= |s|
    ensures i + n <= |s|
    ensures i + n == |s| || IsDigit(s[i + n])
    decreases |s| - i
  {
    if i < |s| && !IsDigit(s[i]) then 1 + NonDigitRun(s, i + 1) else 0
  }

  /** Nothing `NonDigitRun` covers is a digit. */
  lemma {:induction false} NonDigitRunNonDigits(s: string, i: nat)
    requires i <= |s|
    ensures forall k :: i <= k < i + NonDigitRun(s, i) ==> !IsDigit(s[k])
    decreases |s| - i
  {
    if i < |s| && !IsDigit(s[i]) {
      NonDigitRunNonDigits(s, i + 1);
    }
  }

  /** `\d+\.\d+\.\d+` anchored at `p`. */
  function TripleAt(s: string, p: nat): (m: Option<TripleMatch>)
    requires p <= |s|
  {
    var a := DigitRun(s, p);
    var q := p + a;
    if a == 0 || q == |s| || s[q] != '.' then None
    else
      var b := DigitRun(s, q + 1);
      var q' := q + 1 + b;
      if b == 0 || q' == |s| || s[q'] != '.' then None
      else
        var c := DigitRun(s, q' + 1);
        if c == 0 then None
        else Some(TripleMatch(s[p..q], s[q + 1..q'], s[q' + 1..q' + 1 + c]))
  }

  /** Where the three runs of a `TripleAt` match sit in `s`. */
  lemma TripleAtFields(s: string, p: nat)
    requires p <= |s| && TripleAt(s, p).Some?
    ensures var m := TripleAt(s, p).value;
      var q := p + |m.major|; var q' := q + 1 + |m.minor|; var e := q' + 1 + |m.patch|;
      && e <= |s|
      && s[p..q] == m.major && s[q] == '.'
      && s[q + 1..q'] == m.minor && s[q'] == '.'
      && s[q' + 1..e] == m.patch
      && (e == |s| || !IsDigit(s[e]))
  {
  }

  /** The three runs of a `TripleAt` match are digit runs. */
  lemma TripleAtDigits(s: string, p: nat)
    requires p <= |s| && TripleAt(s, p).Some?
    ensures var m := TripleAt(s, p).value;
      IsDigits(m.major) && IsDigits(m.minor) && IsDigits(m.patch)
  {
    var m := TripleAt(s, p).value;
    var q := p + |m.major|;
    var q' := q + 1 + |m.minor|;
    DigitRunDigits(s, p);
    DigitRunDigits(s, q + 1);
    DigitRunDigits(s, q' + 1);
    assert IsDigits(m.major) by {
      forall k | 0 <= k < |m.major| ensures IsDigit(m.major[k]) { assert m.major[k] == s[p + k]; }
    }
    assert IsDigits(m.minor) by {
      forall k | 0 <= k < |m.minor| ensures IsDigit(m.minor[k]) { assert m.minor[k] == s[q + 1 + k]; }
    }
    assert IsDigits(m.patch) by {
      forall k | 0 <= k < |m.patch| ensures IsDigit(m.patch[k]) { assert m.patch[k] == s[q' + 1 + k]; }
    }
  }

  /** Runs `a`, `b`, `c` placed around two dots at `p` spell `a.b.c` there. */
  lemma PlacedTriple(s: string, p: nat, a: string, b: string, c: string)
    requires p + |a| + |b| + |c| + 2 <= |s|
    requires s[p..p + |a|] == a && s[p + |a|] == '.'
    requires s[p + |a| + 1..p + |a| + 1 + |b|] == b && s[p + |a| + 1 + |b|] == '.'
    requires s[p + |a| + |b| + 2..p + |a| + |b| + 2 + |c|] == c
    ensures s[p..p + |a| + |b| + |c| + 2] == a + "." + b + "." + c
  {
    var q := p + |a|;
    var q' := q + 1 + |b|;
    var e := q' + 1 + |c|;
    assert s[p..e] == s[p..q] + [s[q]] + s[q + 1..q'] + [s[q']] + s[q' + 1..e];
  }

  /** What `TripleAt` matches is really there, and its patch run ends where
      the digits end. */
  lemma TripleAtSound(s: string, p: nat)
    requires p <= |s|
    ensures var m := TripleAt(s, p); m.Some? ==>
      var e := p + |m.value.Text()|;
      e <= |s| && s[p..e] == m.value.Text() && (e == |s| || !IsDigit(s[e]))
  {
    if TripleAt(s, p).Some? {
      var m := TripleAt(s, p).value;
      TripleAtFields(s, p);
      PlacedTriple(s, p, m.major, m.minor, m.patch);
    }
  }

  /** A run of `n` digits followed by a non-digit (or the end) is exactly what
      `DigitRun` measures. */
  lemma {:induction false} DigitRunExact(s: string, i: nat, n: nat)
    requires i + n <= |s|
    requires forall k :: i <= k < i + n ==> IsDigit(s[k])
    requires i + n == |s| || !IsDigit(s[i + n])
    ensures DigitRun(s, i) == n
    decreases n
  {
    if n > 0 {
      DigitRunExact(s, i + 1, n - 1);
    }
  }

  /** `n` digits at `i` make a run of at least `n`. */
  lemma {:induction false} DigitRunAtLeast(s: string, i: nat, n: nat)
    requires i + n <= |s|
    requires forall k :: i <= k < i + n ==> IsDigit(s[k])
    ensures DigitRun(s, i) >= n
    decreases n
  {
    if n > 0 {
      DigitRunAtLeast(s, i + 1, n - 1);
    }
  }

  /** Digits `d` found at `i` of `s`: the digit run from `i` covers them,
      and ends with them when a non-digit follows. */
  lemma RunAt(s: string, i: nat, d: string)
    requires i + |d| <= |s| && IsDigits(d)
    requires s[i..i + |d|] == d
    ensures DigitRun(s, i) >= |d|
    ensures i + |d| == |s| || !IsDigit(s[i + |d|]) ==> DigitRun(s, i) == |d|
  {
    forall k | i <= k < i + |d| ensures IsDigit(s[k]) {
      assert s[k] == d[k - i];
    }
    DigitRunAtLeast(s, i, |d|);
    if i + |d| == |s| || !IsDigit(s[i + |d|]) {
      DigitRunExact(s, i, |d|);
    }
  }

  /** A piece of a text placed at `p` of `s` is the matching slice of `s`. */
  lemma SubSlice(s: string, p: nat, t: string, i: nat, j: nat)
    requires p + |t| <= |s| && s[p..p + |t|] == t && i <= j <= |t|
    ensures s[p + i..p + j] == t[i..j]
  {
    forall k | 0 <= k < j - i ensures s[p + i..p + j][k] == t[i..j][k] {
      assert s[p + i..p + j][k] == s[p + i + k];
      assert s[p..p + |t|][i + k] == s[p + i + k];
    }
  }

  /** Where the pieces of `a.b.c` sit in its text. */
  lemma TripleTextParts(a: string, b: string, c: string)
    ensures var t := a + "." + b + "." + c;
      && |t| == |a| + |b| + |c| + 2
      && t[..|a|] == a && t[|a|] == '.'
      && t[|a| + 1..|a| + 1 + |b|] == b && t[|a| + 1 + |b|] == '.'
      && t[|a| + |b| + 2..] == c
  {
    var t := a + "." + b + "." + c;
    assert t == ((a + ".") + (b + ".")) + c;
    assert t[..|a|] == a;
    assert t[|a| + 1..|a| + 1 + |b|] == b;
    assert t[|a| + |b| + 2..] == c;
  }

  /** Where the pieces of `a.b.c` sit in `s` when it starts at `p`. */
  lemma TriplePlaced(s: string, p: nat, a: string, b: string, c: string)
    requires p <= |s|
    requires HasPrefix(s[p..], a + "." + b + "." + c)
    ensures p + |a| + |b| + |c| + 2 <= |s|
    ensures s[p..p + |a|] == a
    ensures s[p + |a|] == '.'
    ensures s[p + |a| + 1..p + |a| + 1 + |b|] == b
    ensures s[p + |a| + 1 + |b|] == '.'
    ensures s[p + |a| + |b| + 2..p + |a| + |b| + 2 + |c|] == c
  {
    var t := a + "." + b + "." + c;
    TripleTextParts(a, b, c);
    assert s[p..p + |t|] == t by {
      assert s[p..][..|t|] == s[p..p + |t|];
    }
    SubSlice(s, p, t, 0, |a|);
    SubSlice(s, p, t, |a| + 1, |a| + 1 + |b|);
    SubSlice(s, p, t, |a| + |b| + 2, |t|);
    assert s[p + |a|] == t[|a|] && s[p + |a| + 1 + |b|] == t[|a| + 1 + |b|] by {
      assert s[p..p + |t|][|a|] == s[p + |a|];
      assert s[p..p + |t|][|a| + 1 + |b|] == s[p + |a| + 1 + |b|];
    }
  }

  /** The recogniser finds every triple that starts at `p`. */
  lemma TripleAtComplete(s: string, p: nat, a: string, b: string, c: string)
    requires p <= |s| && SpelledAt(s, p, a, b, c)
    ensures TripleAt(s, p).Some?
  {
    SpelledRuns(s, p, a, b, c);
    TripleAtRuns(s, p, |a|, |b|);
  }

  /** When the digits of `a.b.c` end with `c`, the recogniser matches exactly
      `a`, `b` and `c`. */
  lemma TripleAtExact(s: string, p: nat, a: string, b: string, c: string)
    requires p <= |s| && SpelledAt(s, p, a, b, c)
    requires p + |a| + |b| + |c| + 2 == |s| || !IsDigit(s[p + |a| + |b| + |c| + 2])
    ensures TripleAt(s, p) == Some(TripleMatch(a, b, c))
  {
    SpelledRuns(s, p, a, b, c);
    PlacedMatch(s, p, a, b, c);
    TripleAtOfRuns(s, p, a, b, c);
  }

  /** `TripleAt` reports the runs `a`, `b`, `c` once they are placed around
      two dots at `p` and `DigitRun` measures them. */
  lemma TripleAtOfRuns(s: string, p: nat, a: string, b: string, c: string)
    requires p + |a| + |b| + |c| + 2 <= |s| && |a| > 0 && |b| > 0 && |c| > 0
    requires DigitRun(s, p) == |a| && s[p + |a|] == '.'
    requires DigitRun(s, p + |a| + 1) == |b| && s[p + |a| + 1 + |b|] == '.'
    requires DigitRun(s, p + |a| + |b| + 2) == |c|
    requires s[p..p + |a|] == a && s[p + |a| + 1..p + |a| + 1 + |b|] == b
    requires s[p + |a| + |b| + 2..p + |a| + |b| + 2 + |c|] == c
    ensures TripleAt(s, p) == Some(TripleMatch(a, b, c))
  {
    TripleAtRunsValue(s, p, |a|, |b|, |c|);
  }

  /** The slices of `s` where `a.b.c` is spelled are `a`, `b` and `c`. */
  lemma PlacedMatch(s: string, p: nat, a: string, b: string, c: string)
    requires p <= |s| && SpelledAt(s, p, a, b, c)
    ensures p + |a| + |b| + |c| + 2 <= |s|
    ensures s[p..p + |a|] == a && s[p + |a| + 1..p + |a| + 1 + |b|] == b
    ensures s[p + |a| + |b| + 2..p + |a| + |b| + 2 + |c|] == c
  {
    TriplePlaced(s, p, a, b, c);
  }

  /** The digit runs and dots of a triple spelled at `p`. */
  lemma SpelledRuns(s: string, p: nat, a: string, b: string, c: string)
    requires p <= |s| && SpelledAt(s, p, a, b, c)
    ensures p + |a| + |b| + |c| + 2 <= |s|
    ensures DigitRun(s, p) == |a| && s[p + |a|] == '.'
    ensures DigitRun(s, p + |a| + 1) == |b| && s[p + |a| + 1 + |b|] == '.'
    ensures DigitRun(s, p + |a| + |b| + 2) >= |c|
    ensures p + |a| + |b| + |c| + 2 == |s| || !IsDigit(s[p + |a| + |b| + |c| + 2])
            ==> DigitRun(s, p + |a| + |b| + 2) == |c|
  {
    TriplePlaced(s, p, a, b, c);
    PlacedRuns(s, p, a, b, c);
  }

  /** Digit runs placed around two dots are what `DigitRun` measures. */
  lemma PlacedRuns(s: string, p: nat, a: string, b: string, c: string)
    requires IsDigits(a) && IsDigits(b) && IsDigits(c)
    requires p + |a| + |b| + |c| + 2 <= |s|
    requires s[p..p + |a|] == a
    requires s[p + |a|] == '.'
    requires s[p + |a| + 1..p + |a| + 1 + |b|] == b
    requires s[p + |a| + 1 + |b|] == '.'
    requires s[p + |a| + |b| + 2..p + |a| + |b| + 2 + |c|] == c
    ensures DigitRun(s, p) == |a|
    ensures DigitRun(s, p + |a| + 1) == |b|
    ensures DigitRun(s, p + |a| + |b| + 2) >= |c|
    ensures p + |a| + |b| + |c| + 2 == |s| || !IsDigit(s[p + |a| + |b| + |c| + 2])
            ==> DigitRun(s, p + |a| + |b| + 2) == |c|
  {
    RunAt(s, p, a);
    RunAt(s, p + |a| + 1, b);
    RunAt(s, p + |a| + |b| + 2, c);
  }

  /** `TripleAt` matches once its three runs are known, and reports runs of
      those lengths. */
  lemma TripleAtRuns(s: string, p: nat, na: nat, nb: nat)
    requires p <= |s|
    requires DigitRun(s, p) == na > 0
    requires p + na < |s| && s[p + na] == '.'
    requires DigitRun(s, p + na + 1) == nb > 0
    requires p + na + 1 + nb < |s| && s[p + na + 1 + nb] == '.'
    requires DigitRun(s, p + na + nb + 2) > 0
    ensures TripleAt(s, p).Some?
    ensures |TripleAt(s, p).value.major| == na && |TripleAt(s, p).value.minor| == nb
    ensures |TripleAt(s, p).value.patch| == DigitRun(s, p + na + nb + 2)
  {
    TripleAtRunsValue(s, p, na, nb, DigitRun(s, p + na + nb + 2));
  }

  /** `TripleAt` once its three runs are known. */
  lemma TripleAtRunsValue(s: string, p: nat, na: nat, nb: nat, nc: nat)
    requires p <= |s|
    requires DigitRun(s, p) == na > 0
    requires p + na < |s| && s[p + na] == '.'
    requires DigitRun(s, p + na + 1) == nb > 0
    requires p + na + 1 + nb < |s| && s[p + na + 1 + nb] == '.'
    requires DigitRun(s, p + na + nb + 2) == nc > 0
    ensures TripleAt(s, p) == Some(TripleMatch(s[p..p + na], s[p + na + 1..p + na + 1 + nb], s[p + na + nb + 2..p + na + nb + 2 + nc]))
  {
  }

  /** A `TripleAt` match spells its three runs at `p`, and the patch run
      ends where the digits end. */
  lemma TripleAtSpelled(s: string, p: nat)
    requires p <= |s| && TripleAt(s, p).Some?
    ensures var m := TripleAt(s, p).value;
      && SpelledAt(s, p, m.major, m.minor, m.patch)
      && var e := p + |m.major| + |m.minor| + |m.patch| + 2;
         e == |s| || !IsDigit(s[e])
  {
    var m := TripleAt(s, p).value;
    TripleAtDigits(s, p);
    TripleAtSound(s, p);
    SliceIsPrefix(s, p, m.Text());
  }

  /** The recogniser and the shape agree at every position. */
  lemma TripleAtIff(s: string, p: nat)
    requires p <= |s|
    ensures TripleAt(s, p).Some? <==> TripleStartsAt(s, p)
  {
    if TripleAt(s, p).Some? {
      TripleAtSpelled(s, p);
    }
    if TripleStartsAt(s, p) {
      var a, b, c :| SpelledAt(s, p, a, b, c);
      TripleAtComplete(s, p, a, b, c);
    }
  }

  // ---------------------------------------------------------------------
  // GetVersionComponents

  /** The leftmost start at or after `i` where `\d+\.\d+\.\d+` matches. */
  function FindTriple(s: string, i: nat): (r: Option<nat>)
    requires i <= |s|
    ensures r.Some? ==> i <= r.value <= |s| && TripleAt(s, r.value).Some?
    ensures r.Some? ==> forall p :: i <= p < r.value ==> TripleAt(s, p).None?
    ensures r.None? ==> forall p :: i <= p <= |s| ==> TripleAt(s, p).None?
    decreases |s| - i
  {
    if TripleAt(s, i).Some? then Some(i)
    else if i == |s| then None
    else FindTriple(s, i + 1)
  }

  /** `a.b.c` is the leftmost triple of `s`, found at `i`, with `c` as long
      as the digits go. */
  ghost predicate LeftmostTriple(s: string, i: nat, a: string, b: string, c: string) {
    && i <= |s|
    && SpelledAt(s, i, a, b, c)
    && (i + |a| + |b| + |c| + 2 == |s| || !IsDigit(s[i + |a| + |b| + |c| + 2]))
    && NoTripleBefore(s, i)
  }

  /** The value Go's `strconv.Atoi` gives a digit run. */
  function RunValue(ds: string): int
    requires IsDigits(ds)
  {
    Clamp64(DecimalValue(ds))
  }

  /** No triple starts before `k` when the recogniser finds none there. */
  lemma NoTripleBeforeOf(s: string, k: nat)
    requires k <= |s| + 1
    requires forall p :: 0 <= p < k && p <= |s| ==> TripleAt(s, p).None?
    ensures NoTripleBefore(s, k)
  {
    forall q | 0 <= q < k && q <= |s| ensures !TripleStartsAt(s, q) {
      TripleAtIff(s, q);
    }
  }

  /** What the search finds is the leftmost triple. */
  lemma FindTripleLeftmost(s: string)
    requires FindTriple(s, 0).Some?
    ensures var i := FindTriple(s, 0).value; var m := TripleAt(s, i).value;
      LeftmostTriple(s, i, m.major, m.minor, m.patch)
  {
    var i := FindTriple(s, 0).value;
    TripleAtSpelled(s, i);
    NoTripleBeforeOf(s, i);
  }

  /** The search succeeds whenever a triple occurs. */
  lemma FindTripleSome(s: string)
    requires HasTriple(s)
    ensures FindTriple(s, 0).Some?
  {
    var p :| 0 <= p <= |s| && TripleStartsAt(s, p);
    TripleAtIff(s, p);
  }

  /** `GetVersionComponents`: the three numbers of the leftmost
      `digits.digits.digits` in `semver`. The source indexes a nil match
      when there is none, so a triple must occur. */
  function GetVersionComponents(semver: string): (r: (int, int, int))
    requires HasTriple(semver)
    ensures 0 <= r.0 <= MaxInt64 && 0 <= r.1 <= MaxInt64 && 0 <= r.2 <= MaxInt64
    ensures exists i, a, b, c :: LeftmostTriple(semver, i, a, b, c) && r == (RunValue(a), RunValue(b), RunValue(c))
  {
    FindTripleSome(semver);
    ComponentsOfLeftmost(semver);
    var m := TripleAt(semver, FindTriple(semver, 0).value).value;
    (Atoi(m.major), Atoi(m.minor), Atoi(m.patch))
  }

  /** The numbers read from the triple the search finds are those of the
      leftmost triple. */
  lemma ComponentsOfLeftmost(s: string)
    requires FindTriple(s, 0).Some?
    ensures var m := TripleAt(s, FindTriple(s, 0).value).value;
      var r := (Atoi(m.major), Atoi(m.minor), Atoi(m.patch));
      && 0 <= r.0 <= MaxInt64 && 0 <= r.1 <= MaxInt64 && 0 <= r.2 <= MaxInt64
      && exists i, a, b, c :: LeftmostTriple(s, i, a, b, c) && r == (RunValue(a), RunValue(b), RunValue(c))
  {
    FindTripleLeftmost(s);
    var i := FindTriple(s, 0).value;
    var m := TripleAt(s, i).value;
    assert LeftmostTriple(s, i, m.major, m.minor, m.patch);
  }

  /** The search from `k` reaches the first match at `p`. */
  lemma {:induction false} FindTripleFrom(s: string, k: nat, p: nat)
    requires k <= p <= |s| && TripleAt(s, p).Some?
    requires forall j :: k <= j < p ==> TripleAt(s, j).None?
    ensures FindTriple(s, k) == Some(p)
    decreases p - k
  {
    if k < p {
      FindTripleFrom(s, k + 1, p);
    }
  }

  /** No triple starts at a non-digit. */
  lemma NoTripleAtNonDigit(s: string, j: nat)
    requires j < |s| && !IsDigit(s[j])
    ensures TripleAt(s, j).None?
  {
  }

  /** `GetVersionComponents` reads `a`, `b` and `c` from `s = P ++ a.b.c ++ R`
      when `P` holds no digit and `R` does not continue the patch digits. */
  lemma ComponentsOfParts(s: string, P: string, t: string, a: string, b: string, c: string, R: string)
    requires NoDigit(P) && Spells(t, a, b, c)
    requires |R| == 0 || !IsDigit(R[0])
    requires s == P + t + R
    ensures HasTriple(s)
    ensures GetVersionComponents(s) == (RunValue(a), RunValue(b), RunValue(c))
  {
    ConcatPieces(P, t, R);
    SliceIsPrefix(s, |P|, t);
    assert SpelledAt(s, |P|, a, b, c);
    assert TripleStartsAt(s, |P|);
    TripleAtExact(s, |P|, a, b, c);
    forall j | 0 <= j < |P| ensures TripleAt(s, j).None? {
      assert s[j] == P[j];
      NoTripleAtNonDigit(s, j);
    }
    FindTripleFrom(s, 0, |P|);
  }

  /** `GetVersionComponents` reads the numbers of a bare `a.b.c`. */
  lemma ComponentsOfTriple(v: string, a: string, b: string, c: string)
    requires Spells(v, a, b, c)
    ensures HasTriple(v)
    ensures GetVersionComponents(v) == (RunValue(a), RunValue(b), RunValue(c))
  {
    assert v == "" + v + "";
    ComponentsOfParts(v, "", v, a, b, c, "");
  }

  /** On the version `GetCleanVersion` returns, `GetVersionComponents` reads
      the three numbers that version spells. */
  lemma ComponentsOfCleanVersion(v: string)
    requires GetCleanVersion(v).Some?
    ensures var w := GetCleanVersion(v).value.version;
      && HasTriple(w)
      && exists a, b, c :: Spells(w, a, b, c) && GetVersionComponents(w) == (RunValue(a), RunValue(b), RunValue(c))
  {
    var w := GetCleanVersion(v).value.version;
    var a, b, c :| Spells(w, a, b, c);
    ComponentsOfTriple(w, a, b, c);
  }

  /** `%d` prints back a canonical digit run that fits Go's `int`. */
  lemma ItoaRunValue(ds: string)
    requires IsCanonicalDecimal(ds) && DecimalValue(ds) <= MaxInt64
    ensures Itoa(RunValue(ds)) == ds
  {
    FormatDecimalValue(ds);
  }

  /** Printing the three numbers of a canonical `a.b.c` (no leading zeros,
      each within Go's `int`) with `%d.%d.%d` gives the text back. */
  lemma ComponentsPrintBack(v: string, a: string, b: string, c: string)
    requires Spells(v, a, b, c)
    requires IsCanonicalDecimal(a) && IsCanonicalDecimal(b) && IsCanonicalDecimal(c)
    requires DecimalValue(a) <= MaxInt64 && DecimalValue(b) <= MaxInt64 && DecimalValue(c) <= MaxInt64
    ensures HasTriple(v)
    ensures var r := GetVersionComponents(v); Itoa(r.0) + "." + Itoa(r.1) + "." + Itoa(r.2) == v
  {
    ComponentsOfTriple(v, a, b, c);
    ItoaRunValue(a);
    ItoaRunValue(b);
    ItoaRunValue(c);
  }

  // ---------------------------------------------------------------------
  // GetCleanVersion

  /** `([^0-9]*)(\d+\.\d+\.\d+)(.*)` tried at start `i`: the non-digit
      prefix is taken greedily (a shorter one would leave `\d+` facing a
      non-digit), then the triple; `(.*)` always succeeds. */
  function CleanAt(s: string, i: nat): Option<CleanVersion>
    requires i <= |s|
  {
    var p := i + NonDigitRun(s, i);
    match TripleAt(s, p)
    case Some(m) => Some(CleanVersion(s[i..p], m.Text()))
    case None => None
  }

  /** The leftmost start at or after `i` where `CleanAt` matches. */
  function FindClean(s: string, i: nat): (r: Option<nat>)
    requires i <= |s|
    ensures r.Some? ==> i <= r.value <= |s| && CleanAt(s, r.value).Some?
    ensures r.Some? ==> forall p :: i <= p < r.value ==> CleanAt(s, p).None?
    ensures r.None? ==> forall p :: i <= p <= |s| ==> CleanAt(s, p).None?
    decreases |s| - i
  {
    if CleanAt(s, i).Some? then Some(i)
    else if i == |s| then None
    else FindClean(s, i + 1)
  }

  /** Where the match of `GetCleanVersion` sits in `s`: the prefix starts
      at `i` just after a digit (or at the start) and holds no digit, the
      version follows it and is the first triple in `s`, ending where the
      digits end. */
  ghost predicate CleanMatchedAt(s: string, i: nat, cv: CleanVersion) {
    && CleanPlaced(s, i, cv)
    && (i == 0 || IsDigit(s[i - 1]))
    && NoTripleBefore(s, i + |cv.prefix|)
  }

  /** The prefix sits at `i` of `s` and the version right after it, ending
      where the digits end. */
  predicate CleanPlaced(s: string, i: nat, cv: CleanVersion) {
    var p := i + |cv.prefix|;
    var e := p + |cv.version|;
    && e <= |s|
    && s[i..p] == cv.prefix
    && s[p..e] == cv.version
    && (e == |s| || !IsDigit(s[e]))
  }

  /** A triple starting at a digit is matched by the clean-version pattern
      tried at that same position (the non-digit prefix is empty there). */
  lemma CleanAtTriple(s: string, q: nat)
    requires q <= |s| && TripleAt(s, q).Some?
    ensures CleanAt(s, q).Some?
  {
    assert IsDigit(s[q]);
    assert NonDigitRun(s, q) == 0;
  }

  /** When the clean-version pattern matches nowhere, no triple occurs. */
  lemma CleanNone(s: string)
    requires FindClean(s, 0).None?
    ensures forall p :: 0 <= p <= |s| ==> !TripleStartsAt(s, p)
  {
    forall p | 0 <= p <= |s| ensures !TripleStartsAt(s, p) {
      TripleAtIff(s, p);
      if TripleAt(s, p).Some? {
        CleanAtTriple(s, p);
      }
    }
  }

  /** No triple starts inside a run of non-digits. */
  lemma NoTripleInNonDigits(s: string, i: nat, q: nat)
    requires i <= |s| && i <= q < i + NonDigitRun(s, i)
    ensures TripleAt(s, q).None?
  {
    NonDigitRunNonDigits(s, i);
    assert !IsDigit(s[q]);
    assert DigitRun(s, q) == 0;
  }

  /** A match tried at `i` after a non-digit also matches one position earlier. */
  lemma CleanAtEarlier(s: string, i: nat)
    requires 0 < i <= |s| && !IsDigit(s[i - 1]) && CleanAt(s, i).Some?
    ensures CleanAt(s, i - 1).Some?
  {
    assert NonDigitRun(s, i - 1) == 1 + NonDigitRun(s, i);
  }

  /** The leftmost match of the clean-version pattern starts right after a
      digit (or at the start). */
  lemma CleanStart(s: string)
    requires FindClean(s, 0).Some?
    ensures var i := FindClean(s, 0).value; i == 0 || IsDigit(s[i - 1])
  {
    var i := FindClean(s, 0).value;
    if i > 0 && !IsDigit(s[i - 1]) {
      CleanAtEarlier(s, i);
      assert false;
    }
  }

  /** No triple starts before the version of the leftmost clean match. */
  lemma CleanLeftmost(s: string)
    requires FindClean(s, 0).Some?
    ensures var i := FindClean(s, 0).value; NoTripleBefore(s, i + NonDigitRun(s, i))
  {
    var i := FindClean(s, 0).value;
    var p := i + NonDigitRun(s, i);
    forall q | 0 <= q < p ensures TripleAt(s, q).None? {
      if q < i {
        if TripleAt(s, q).Some? {
          CleanAtTriple(s, q);
        }
      } else {
        NoTripleInNonDigits(s, i, q);
      }
    }
    NoTripleBeforeOf(s, p);
  }

  /** A slice of `s` from `p` is a prefix of `s[p..]`. */
  lemma SliceIsPrefix(s: string, p: nat, t: string)
    requires p + |t| <= |s| && s[p..p + |t|] == t
    ensures HasPrefix(s[p..], t)
  {
    assert s[p..][..|t|] == s[p..p + |t|];
  }

  /** The text before the triple holds no digit. */
  lemma NonDigitSlice(s: string, i: nat)
    requires i <= |s|
    ensures NoDigit(s[i..i + NonDigitRun(s, i)])
  {
    var t := s[i..i + NonDigitRun(s, i)];
    NonDigitRunNonDigits(s, i);
    forall k | 0 <= k < |t| ensures !IsDigit(t[k]) {
      assert t[k] == s[i + k];
    }
  }

  /** The two groups of a clean-version match tried at `i`. */
  lemma CleanAtParts(s: string, i: nat)
    requires i <= |s| && CleanAt(s, i).Some?
    ensures var p := i + NonDigitRun(s, i);
      && TripleAt(s, p).Some?
      && CleanAt(s, i).value.prefix == s[i..p]
      && CleanAt(s, i).value.version == TripleAt(s, p).value.Text()
  {
  }

  /** The version group of a clean-version match is a triple, and one
      starts where it does. */
  lemma CleanAtVersion(s: string, i: nat)
    requires i <= |s| && CleanAt(s, i).Some?
    ensures IsTriple(CleanAt(s, i).value.version)
    ensures TripleStartsAt(s, i + NonDigitRun(s, i))
  {
    var p := i + NonDigitRun(s, i);
    CleanAtParts(s, i);
    var m := TripleAt(s, p).value;
    TripleAtDigits(s, p);
    TripleAtIff(s, p);
    assert Spells(CleanAt(s, i).value.version, m.major, m.minor, m.patch);
  }

  /** The prefix group of a clean-version match holds no digit. */
  lemma CleanAtPrefix(s: string, i: nat)
    requires i <= |s| && CleanAt(s, i).Some?
    ensures NoDigit(CleanAt(s, i).value.prefix)
  {
    CleanAtParts(s, i);
    NonDigitSlice(s, i);
  }

  /** Where the two groups of a clean-version match tried at `i` sit in `s`. */
  lemma CleanAtSlices(s: string, i: nat)
    requires i <= |s| && CleanAt(s, i).Some?
    ensures |CleanAt(s, i).value.prefix| == NonDigitRun(s, i)
    ensures CleanPlaced(s, i, CleanAt(s, i).value)
  {
    CleanAtParts(s, i);
    TripleAtSound(s, i + NonDigitRun(s, i));
  }

  /** A clean-version match at `i` that starts after a digit and precedes
      every triple is located by `CleanMatchedAt`. */
  lemma CleanMatchedFrom(s: string, i: nat)
    requires i <= |s| && CleanAt(s, i).Some?
    requires i == 0 || IsDigit(s[i - 1])
    requires NoTripleBefore(s, i + NonDigitRun(s, i))
    ensures CleanMatchedAt(s, i, CleanAt(s, i).value)
  {
    CleanAtSlices(s, i);
  }

  /** `GetCleanVersion`: the range operator and the `a.b.c` of a declared
      range. The source indexes a nil match when there is no full triple;
      that case is `None` here. */
  function GetCleanVersion(version: string): (r: Option<CleanVersion>)
    ensures r.None? <==> forall p :: 0 <= p <= |version| ==> !TripleStartsAt(version, p)
    ensures r.Some? ==> NoDigit(r.value.prefix) && IsTriple(r.value.version)
    ensures r.Some? ==> exists i :: CleanMatchedAt(version, i, r.value)
  {
    match FindClean(version, 0)
    case None =>
      CleanNone(version);
      None
    case Some(i) =>
      CleanAtVersion(version, i);
      CleanAtPrefix(version, i);
      CleanStart(version);
      CleanLeftmost(version);
      CleanMatchedFrom(version, i);
      CleanAt(version, i)
  }

  /** A non-digit run of `n` characters ending at a digit (or the end) is
      exactly what `NonDigitRun` measures. */
  lemma {:induction false} NonDigitRunExact(s: string, i: nat, n: nat)
    requires i + n <= |s|
    requires forall k :: i <= k < i + n ==> !IsDigit(s[k])
    requires i + n == |s| || IsDigit(s[i + n])
    ensures NonDigitRun(s, i) == n
    decreases n
  {
    if n > 0 {
      NonDigitRunExact(s, i + 1, n - 1);
    }
  }

  /** The pieces of `P ++ t ++ R` sit where they were put. */
  lemma ConcatPieces(P: string, t: string, R: string)
    ensures var s := P + t + R;
      && |s| == |P| + |t| + |R|
      && s[..|P|] == P
      && s[|P|..|P| + |t|] == t
      && (|R| > 0 ==> s[|P| + |t|] == R[0])
      && (forall k :: 0 <= k < |P| ==> s[k] == P[k])
  {
    var s := P + t + R;
    assert s == P + (t + R);
    assert s[|P|..|P| + |t|] == (t + R)[..|t|];
  }

  /** The clean-version pattern tried at the start of `s` matches prefix `P`
      and the triple `t` when `s` begins with them. */
  lemma CleanAtStart(s: string, P: string, a: string, b: string, c: string)
    requires |P| <= |s| && s[..|P|] == P && NoDigit(P)
    requires SpelledAt(s, |P|, a, b, c)
    requires var e := |P| + |a| + |b| + |c| + 2; e == |s| || !IsDigit(s[e])
    ensures CleanAt(s, 0) == Some(CleanVersion(P, a + "." + b + "." + c))
  {
    TriplePlaced(s, |P|, a, b, c);
    assert IsDigit(s[|P|]) by {
      assert s[|P|..|P| + |a|][0] == s[|P|];
    }
    forall k | 0 <= k < |P| ensures !IsDigit(s[k]) {
      assert s[..|P|][k] == s[k];
    }
    NonDigitRunExact(s, 0, |P|);
    TripleAtExact(s, |P|, a, b, c);
    assert s[0..|P|] == P;
  }

  /** `GetCleanVersion` splits `P ++ a.b.c ++ R` back into `P` and `a.b.c`
      when `P` holds no digit and `R` does not continue the patch digits:
      the operator prefix and the version are recovered, and the rest is
      dropped. */
  lemma CleanVersionOfParts(s: string, P: string, t: string, a: string, b: string, c: string, R: string)
    requires NoDigit(P) && Spells(t, a, b, c)
    requires |R| == 0 || !IsDigit(R[0])
    requires s == P + t + R
    ensures GetCleanVersion(s) == Some(CleanVersion(P, t))
  {
    ConcatPieces(P, t, R);
    SliceIsPrefix(s, |P|, t);
    assert SpelledAt(s, |P|, a, b, c);
    CleanAtStart(s, P, a, b, c);
  }

  /** A triple starting at `p` puts dots at two different positions. */
  lemma TripleDots(s: string, p: nat)
    requires p <= |s| && TripleStartsAt(s, p)
    ensures exists i, j :: p < i < j < |s| && s[i] == '.' && s[j] == '.'
  {
    var a, b, c :| SpelledAt(s, p, a, b, c);
    TriplePlaced(s, p, a, b, c);
    assert p < p + |a| < p + |a| + 1 + |b| < |s|;
  }

  /** Text with at most one dot, at `d`, has no clean version: the pattern
      needs two. */
  lemma OneDotNoCleanVersion(s: string, d: int)
    requires forall i :: 0 <= i < |s| && s[i] == '.' ==> i == d
    ensures GetCleanVersion(s).None?
  {
    forall p | 0 <= p <= |s| ensures !TripleStartsAt(s, p) {
      if TripleStartsAt(s, p) {
        TripleDots(s, p);
        assert false;
      }
    }
  }

  // ---------------------------------------------------------------------
  // GetVersionUpdateType

  /** The numbers `strconv.Atoi` reads from the dot-separated parts. */
  function Values(v: string): (r: seq<int>)
    ensures |r| == |Split(v, '.')|
  {
    var parts := Split(v, '.');
    seq(|parts|, i requires 0 <= i < |parts| => Atoi(parts[i]))
  }

  /** A digit run holds no dot. */
  lemma DigitsNoDot(ds: string)
    requires IsDigits(ds)
    ensures '.' !in ds
  {
    forall k | 0 <= k < |ds| ensures ds[k] != '.' {
      assert IsDigit(ds[k]);
    }
  }

  /** The dot-separated numbers of `a.b.c` are those `GetVersionComponents`
      reads: both classifiers see the same three values on a bare triple. */
  lemma ValuesOfTriple(v: string, a: string, b: string, c: string)
    requires Spells(v, a, b, c)
    ensures Split(v, '.') == [a, b, c]
    ensures Values(v) == [RunValue(a), RunValue(b), RunValue(c)]
    ensures HasTriple(v)
    ensures var r := GetVersionComponents(v); Values(v) == [r.0, r.1, r.2]
  {
    DigitsNoDot(a);
    DigitsNoDot(b);
    DigitsNoDot(c);
    SplitThree(a, b, c, '.');
    assert Split(v, '.') == [a, b, c];
    ComponentsOfTriple(v, a, b, c);
  }

  /** `changeDirection` of the first loop for one position: 1, -1 or 0. */
  function Step(current: int, latest: int): int {
    if latest > current then 1 else if latest < current then -1 else 0
  }

  /** The `versionChange` slice after the first loop: positions past the
      current version's parts stay 0. */
  function VersionChange(cur: seq<int>, lat: seq<int>): (changes: seq<int>)
    requires |cur| <= 3 && |lat| >= |cur|
    ensures |changes| == 3
  {
    seq(3, i requires 0 <= i < 3 => if i < |cur| then Step(cur[i], lat[i]) else 0)
  }

  /** The component a position names. */
  function TypeAt(i: nat): UpgradeType {
    if i == 0 then Major else if i == 1 then Minor else Patch
  }

  /** The second loop: the first non-zero entry decides. */
  function FirstChange(changes: seq<int>, i: nat): UpdateType
    requires i <= |changes|
    decreases |changes| - i
  {
    if i == |changes| then UpdateType(NoneT, NoneD)
    else if changes[i] == -1 then UpdateType(TypeAt(i), Downgrade)
    else if changes[i] == 1 then UpdateType(TypeAt(i), Upgrade)
    else FirstChange(changes, i + 1)
  }

  /** The inputs on which `GetVersionUpdateType` does not index out of
      range: equal strings, or at most three current parts and at least as
      many latest parts. */
  predicate Classifiable(current: string, latest: string) {
    current == latest || (|Split(current, '.')| <= 3 && |Split(latest, '.')| >= |Split(current, '.')|)
  }

  /** Position `i` is the first at which the numbers differ, and `r` names
      that position and the way the number moved. */
  ghost predicate DecidedAt(cur: seq<int>, lat: seq<int>, i: nat, r: UpdateType) {
    && i < |cur| && i < |lat|
    && (forall j :: 0 <= j < i ==> cur[j] == lat[j])
    && cur[i] != lat[i]
    && r.kind == TypeAt(i)
    && (r.direction == Upgrade <==> lat[i] > cur[i])
    && (r.direction == Downgrade <==> lat[i] < cur[i])
  }

  lemma {:induction false} FirstChangeSpec(cur: seq<int>, lat: seq<int>, i: nat)
    requires |cur| <= 3 && |lat| >= |cur| && i <= 3
    requires forall j :: 0 <= j < i && j < |cur| ==> cur[j] == lat[j]
    ensures var r := FirstChange(VersionChange(cur, lat), i);
      && (r.kind == NoneT <==> r.direction == NoneD)
      && (r.direction == NoneD <==> forall j :: i <= j < |cur| ==> cur[j] == lat[j])
      && (r.direction != NoneD ==> exists k :: DecidedAt(cur, lat, k, r))
    decreases 3 - i
  {
    var changes := VersionChange(cur, lat);
    if i < 3 && changes[i] == 0 {
      FirstChangeSpec(cur, lat, i + 1);
    } else if i < 3 {
      assert DecidedAt(cur, lat, i, FirstChange(changes, i));
    }
  }

  /** `GetVersionUpdateType`: equal strings are "none" outright; otherwise
      the first position (major, minor, patch) whose numbers differ decides
      both the type and the direction, and later positions do not matter. A
      part that is not a plain number reads as `strconv.Atoi` reads it. */
  function GetVersionUpdateType(currentVersion: string, latestVersion: string): (r: UpdateType)
    requires Classifiable(currentVersion, latestVersion)
    ensures currentVersion == latestVersion ==> r == UpdateType(NoneT, NoneD)
    ensures r.kind == NoneT <==> r.direction == NoneD
    ensures currentVersion != latestVersion ==>
      (r.direction == NoneD <==>
        forall j :: 0 <= j < |Values(currentVersion)| ==> Values(currentVersion)[j] == Values(latestVersion)[j])
    ensures r.direction != NoneD ==> exists k :: DecidedAt(Values(currentVersion), Values(latestVersion), k, r)
  {
    if latestVersion == currentVersion then UpdateType(NoneT, NoneD)
    else
      var cur := Values(currentVersion);
      var lat := Values(latestVersion);
      FirstChangeSpec(cur, lat, 0);
      FirstChange(VersionChange(cur, lat), 0)
  }

  /** The opposite direction. */
  function Flip(d: UpgradeDirection): UpgradeDirection {
    match d
    case Upgrade => Downgrade
    case Downgrade => Upgrade
    case NoneD => NoneD
  }

  lemma {:induction false} FirstChangeSwap(cur: seq<int>, lat: seq<int>, i: nat)
    requires |cur| == |lat| <= 3 && i <= 3
    ensures var r := FirstChange(VersionChange(cur, lat), i);
      FirstChange(VersionChange(lat, cur), i) == UpdateType(r.kind, Flip(r.direction))
    decreases 3 - i
  {
    if i < 3 {
      FirstChangeSwap(cur, lat, i + 1);
    }
  }

  /** Swapping current and latest keeps the type and swaps upgrade with
      downgrade (when both have the same number of parts, so both calls are
      defined). */
  lemma UpdateTypeSwap(currentVersion: string, latestVersion: string)
    requires |Split(currentVersion, '.')| == |Split(latestVersion, '.')| <= 3
    ensures var r := GetVersionUpdateType(currentVersion, latestVersion);
      GetVersionUpdateType(latestVersion, currentVersion) == UpdateType(r.kind, Flip(r.direction))
  {
    if currentVersion != latestVersion {
      FirstChangeSwap(Values(currentVersion), Values(latestVersion), 0);
    }
  }

  /** Reference classification of two component triples: the first of
      major, minor, patch that differs decides. */
  function ComponentOrder(c: (int, int, int), l: (int, int, int)): UpdateType {
    if c.0 != l.0 then UpdateType(Major, if l.0 > c.0 then Upgrade else Downgrade)
    else if c.1 != l.1 then UpdateType(Minor, if l.1 > c.1 then Upgrade else Downgrade)
    else if c.2 != l.2 then UpdateType(Patch, if l.2 > c.2 then Upgrade else Downgrade)
    else UpdateType(NoneT, NoneD)
  }

  /** `FirstChange` over three numbers is the reference order. */
  lemma FirstChangeThree(c: (int, int, int), l: (int, int, int))
    ensures FirstChange(VersionChange([c.0, c.1, c.2], [l.0, l.1, l.2]), 0) == ComponentOrder(c, l)
  {
    var changes := VersionChange([c.0, c.1, c.2], [l.0, l.1, l.2]);
    assert changes == [Step(c.0, l.0), Step(c.1, l.1), Step(c.2, l.2)];
    assert FirstChange(changes, 3) == UpdateType(NoneT, NoneD);
    assert FirstChange(changes, 2) == ComponentOrder((0, 0, c.2), (0, 0, l.2));
    assert FirstChange(changes, 1) == ComponentOrder((0, c.1, c.2), (0, l.1, l.2));
  }

  /** On two bare triples the classifier compares exactly the numbers
      `GetVersionComponents` reads from them. */
  lemma UpdateTypeByComponents(cur: string, lat: string)
    requires IsTriple(cur) && IsTriple(lat)
    ensures Classifiable(cur, lat) && HasTriple(cur) && HasTriple(lat)
    ensures GetVersionUpdateType(cur, lat) == ComponentOrder(GetVersionComponents(cur), GetVersionComponents(lat))
  {
    var a, b, c :| Spells(cur, a, b, c);
    var x, y, z :| Spells(lat, x, y, z);
    ValuesOfTriple(cur, a, b, c);
    ValuesOfTriple(lat, x, y, z);
    var rc := GetVersionComponents(cur);
    var rl := GetVersionComponents(lat);
    FirstChangeThree(rc, rl);
  }

  /** The classification of two spelled-out triples, by their numbers. */
  lemma UpdateTypeOfTriples(cur: string, a: string, b: string, c: string,
                            lat: string, x: string, y: string, z: string)
    requires Spells(cur, a, b, c) && Spells(lat, x, y, z)
    ensures Classifiable(cur, lat)
    ensures GetVersionUpdateType(cur, lat)
      == ComponentOrder((RunValue(a), RunValue(b), RunValue(c)), (RunValue(x), RunValue(y), RunValue(z)))
  {
    UpdateTypeByComponents(cur, lat);
    ComponentsOfTriple(cur, a, b, c);
    ComponentsOfTriple(lat, x, y, z);
  }

  /** The numbers read from three dot-free parts joined by dots. */
  lemma ValuesOfParts(v: string, p0: string, p1: string, p2: string)
    requires '.' !in p0 && '.' !in p1 && '.' !in p2
    requires v == p0 + "." + p1 + "." + p2
    ensures Split(v, '.') == [p0, p1, p2]
    ensures Values(v) == [Atoi(p0), Atoi(p1), Atoi(p2)]
  {
    SplitThree(p0, p1, p2, '.');
  }

  /** The classification of two different three-part versions compares
      the numbers `strconv.Atoi` reads from the parts, whatever the parts
      hold. */
  lemma UpdateTypeOfParts(cur: string, c0: string, c1: string, c2: string,
                          lat: string, l0: string, l1: string, l2: string)
    requires '.' !in c0 && '.' !in c1 && '.' !in c2 && cur == c0 + "." + c1 + "." + c2
    requires '.' !in l0 && '.' !in l1 && '.' !in l2 && lat == l0 + "." + l1 + "." + l2
    requires cur != lat
    ensures Classifiable(cur, lat)
    ensures GetVersionUpdateType(cur, lat) == ComponentOrder((Atoi(c0), Atoi(c1), Atoi(c2)), (Atoi(l0), Atoi(l1), Atoi(l2)))
  {
    ValuesOfParts(cur, c0, c1, c2);
    ValuesOfParts(lat, l0, l1, l2);
    FirstChangeThree((Atoi(c0), Atoi(c1), Atoi(c2)), (Atoi(l0), Atoi(l1), Atoi(l2)));
  }
}
