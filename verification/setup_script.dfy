/** `compareSemver` of the npm install script `scripts/setup.js`: both
    versions are split at dots, each part is read with JavaScript's
    `parseInt`, and the parts are compared position by position over the
    first version's length. JavaScript numbers are modelled as exact
    integers or `NaN`; an index past the end of the second array is
    `undefined`, which compares like `NaN`. */
module SetupScript {
  import opened Strings
  import opened Strconv

  /** A JavaScript number as `parseInt` produces it. */
  datatype JsNum = Num(value: int) | NaN

  /** The white space `parseInt` skips: ECMAScript's WhiteSpace and
      LineTerminator characters. */
  predicate IsJsSpace(c: char) {
    || c == '\t' || c == '\n' || c == '\U{B}' || c == '\U{C}' || c == '\r' || c == ' '
    || c == '\U{A0}' || c == '\U{1680}' || ('\U{2000}' <= c <= '\U{200A}')
    || c == '\U{2028}' || c == '\U{2029}' || c == '\U{202F}' || c == '\U{205F}'
    || c == '\U{3000}' || c == '\U{FEFF}'
  }

  /** Leading white space dropped. */
  function TrimJsSpace(s: string): string
    decreases |s|
  {
    if |s| > 0 && IsJsSpace(s[0]) then TrimJsSpace(s[1..]) else s
  }

  predicate IsHexDigit(c: char) {
    IsDigit(c) || ('a' <= c <= 'f') || ('A' <= c <= 'F')
  }

  function HexDigitValue(c: char): nat
    requires IsHexDigit(c)
  {
    if IsDigit(c) then DigitValue(c)
    else if 'a' <= c <= 'f' then c as int - 'a' as int + 10
    else c as int - 'A' as int + 10
  }

  /** Length of the longest prefix of hexadecimal digits. */
  function HexPrefixLength(s: string): (n: nat)
    ensures n <= |s|
    ensures forall i :: 0 <= i < n ==> IsHexDigit(s[i])
  {
    if |s| > 0 && IsHexDigit(s[0]) then 1 + HexPrefixLength(s[1..]) else 0
  }

  /** The value of a string of hexadecimal digits. */
  function HexValue(ds: string): nat
    requires forall i :: 0 <= i < |ds| ==> IsHexDigit(ds[i])
  {
    if |ds| == 0 then 0 else HexValue(ds[..|ds| - 1]) * 16 + HexDigitValue(ds[|ds| - 1])
  }

  /** The magnitude `parseInt` reads after the sign, with no radix given:
      `0x`/`0X` switches to hexadecimal, and no digit at all is `NaN`. */
  function Magnitude(s: string): JsNum {
    if |s| >= 2 && s[0] == '0' && (s[1] == 'x' || s[1] == 'X') then
      var n := HexPrefixLength(s[2..]);
      if n == 0 then NaN else Num(HexValue(s[2..][..n]))
    else
      var n := DigitPrefixLength(s);
      if n == 0 then NaN else Num(DecimalValue(s[..n]))
  }

  /** `parseInt(s)`: leading white space, an optional sign, then the
      longest run of digits; whatever follows is ignored. */
  function ParseInt(s: string): JsNum {
    var t := TrimJsSpace(s);
    if |t| > 0 && t[0] == '-' then
      match Magnitude(t[1..])
      case Num(v) => Num(-v)
      case NaN => NaN
    else if |t| > 0 && t[0] == '+' then Magnitude(t[1..])
    else Magnitude(t)
  }

  /** `versionX.split(".").map(n => parseInt(n))`. */
  function ParseParts(version: string): (r: seq<JsNum>)
    ensures |r| == |Split(version, '.')| >= 1
  {
    var parts := Split(version, '.');
    seq(|parts|, i requires 0 <= i < |parts| => ParseInt(parts[i]))
  }

  /** `arr[i]`, with `undefined` past the end (it compares like `NaN`). */
  function At(arr: seq<JsNum>, i: nat): JsNum {
    if i < |arr| then arr[i] else NaN
  }

  /** JavaScript's `x > y` on these numbers: false whenever either is
      `NaN`. */
  predicate Greater(x: JsNum, y: JsNum) {
    x.Num? && y.Num? && x.value > y.value
  }

  /** Neither comparison holds at a position, so the loop goes on. */
  predicate Undecided(x: JsNum, y: JsNum) {
    !Greater(x, y) && !Greater(y, x)
  }

  /** The loop from position `i`. */
  function CompareFrom(arr1: seq<JsNum>, arr2: seq<JsNum>, i: nat): int
    decreases |arr1| - i
  {
    if i >= |arr1| then 0
    else if Greater(arr1[i], At(arr2, i)) then 1
    else if Greater(At(arr2, i), arr1[i]) then -1
    else CompareFrom(arr1, arr2, i + 1)
  }

  /** `compareSemver(versionA, versionB)`. */
  function CompareSemver(versionA: string, versionB: string): int {
    CompareFrom(ParseParts(versionA), ParseParts(versionB), 0)
  }

  /** Position `k` decides: every earlier position of the first array is
      undecided. */
  ghost predicate FirstDecidedAt(arr1: seq<JsNum>, arr2: seq<JsNum>, i: nat, k: nat) {
    && i <= k < |arr1|
    && (forall j :: i <= j < k ==> Undecided(arr1[j], At(arr2, j)))
    && !Undecided(arr1[k], At(arr2, k))
  }

  /** The loop answers 1 when the first position that is not undecided has
      the first array larger, -1 when it has the second larger, and 0 when
      every position of the first array is undecided. */
  lemma {:induction false} CompareFromSpec(arr1: seq<JsNum>, arr2: seq<JsNum>, i: nat)
    ensures var r := CompareFrom(arr1, arr2, i);
      && (r == 1 || r == 0 || r == -1)
      && (r == 0 <==> forall j :: i <= j < |arr1| ==> Undecided(arr1[j], At(arr2, j)))
      && (r == 1 <==> exists k: nat :: FirstDecidedAt(arr1, arr2, i, k) && Greater(arr1[k], At(arr2, k)))
      && (r == -1 <==> exists k: nat :: FirstDecidedAt(arr1, arr2, i, k) && Greater(At(arr2, k), arr1[k]))
    decreases |arr1| - i
  {
    if i < |arr1| {
      if Undecided(arr1[i], At(arr2, i)) {
        CompareFromSpec(arr1, arr2, i + 1);
        var r := CompareFrom(arr1, arr2, i);
        if r == 1 {
          var k: nat :| FirstDecidedAt(arr1, arr2, i + 1, k) && Greater(arr1[k], At(arr2, k));
          assert FirstDecidedAt(arr1, arr2, i, k);
        }
        if r == -1 {
          var k: nat :| FirstDecidedAt(arr1, arr2, i + 1, k) && Greater(At(arr2, k), arr1[k]);
          assert FirstDecidedAt(arr1, arr2, i, k);
        }
        forall k: nat | FirstDecidedAt(arr1, arr2, i, k) ensures FirstDecidedAt(arr1, arr2, i + 1, k) {
        }
      } else {
        assert FirstDecidedAt(arr1, arr2, i, i);
        forall k: nat | FirstDecidedAt(arr1, arr2, i, k) ensures k == i {
        }
      }
    }
  }

  /** A version compared with itself gives 0. */
  lemma CompareSelf(version: string)
    ensures CompareSemver(version, version) == 0
  {
    var arr := ParseParts(version);
    CompareFromSpec(arr, arr, 0);
  }

  /** Swapping equally long arrays negates the answer. */
  lemma {:induction false} CompareFromSwap(arr1: seq<JsNum>, arr2: seq<JsNum>, i: nat)
    requires |arr1| == |arr2|
    ensures CompareFrom(arr2, arr1, i) == -CompareFrom(arr1, arr2, i)
    decreases |arr1| - i
  {
    if i < |arr1| {
      CompareFromSwap(arr1, arr2, i + 1);
    }
  }

  /** For versions with the same number of parts, swapping the arguments
      negates the answer. */
  lemma CompareSwap(versionA: string, versionB: string)
    requires |Split(versionA, '.')| == |Split(versionB, '.')|
    ensures CompareSemver(versionB, versionA) == -CompareSemver(versionA, versionB)
  {
    CompareFromSwap(ParseParts(versionA), ParseParts(versionB), 0);
  }

  /** Only the first array's length is walked: positions of the second
      array beyond it never matter. */
  lemma {:induction false} CompareFromPrefix(arr1: seq<JsNum>, arr2: seq<JsNum>, arr3: seq<JsNum>, i: nat)
    requires forall j :: 0 <= j < |arr1| ==> At(arr2, j) == At(arr3, j)
    ensures CompareFrom(arr1, arr2, i) == CompareFrom(arr1, arr3, i)
    decreases |arr1| - i
  {
    if i < |arr1| {
      CompareFromPrefix(arr1, arr2, arr3, i + 1);
    }
  }

  /** A second version that agrees with another on the first version's
      positions compares the same, whatever parts it has beyond them. */
  lemma ExtraPartsIgnored(versionA: string, versionB: string, versionC: string)
    requires forall j :: 0 <= j < |ParseParts(versionA)| ==>
      At(ParseParts(versionB), j) == At(ParseParts(versionC), j)
    ensures CompareSemver(versionA, versionB) == CompareSemver(versionA, versionC)
  {
    CompareFromPrefix(ParseParts(versionA), ParseParts(versionB), ParseParts(versionC), 0);
  }

  /** A part that `parseInt` cannot read never decides, whatever it is
      compared with. */
  lemma NaNUndecided(x: JsNum)
    ensures Undecided(NaN, x) && Undecided(x, NaN)
  {
  }

  /** Text that starts with a digit is read as it stands: no white space
      is skipped and no sign is read. */
  lemma ParseIntUnsigned(s: string)
    requires |s| > 0 && IsDigit(s[0])
    ensures ParseInt(s) == Magnitude(s)
  {
    assert !IsJsSpace(s[0]);
    assert TrimJsSpace(s) == s;
  }

  /** The number `parseInt` reads from a digit run followed by anything
      that is not a digit: the run's value, unless the run is a lone `0`
      followed by `x`, which starts a hexadecimal number. */
  lemma ParseIntDigitsThen(s: string, ds: string, rest: string)
    requires IsDigits(ds) && (|rest| == 0 || !IsDigit(rest[0]))
    requires ds != "0" || |rest| == 0 || (rest[0] != 'x' && rest[0] != 'X')
    requires s == ds + rest
    ensures ParseInt(s) == Num(DecimalValue(ds))
  {
    assert s[0] == ds[0];
    ParseIntUnsigned(s);
    assert !(|s| >= 2 && s[0] == '0' && (s[1] == 'x' || s[1] == 'X')) by {
      if |ds| >= 2 {
        assert s[1] == ds[1];
      } else if |rest| > 0 {
        assert s[1] == rest[0];
        assert ds == [ds[0]];
      }
    }
    if |rest| > 0 {
      DigitPrefixOfConcat(ds, rest);
    } else {
      assert s == ds;
      DigitPrefixAll(s);
    }
    assert s[..|ds|] == ds;
  }

  /** A string of digits is its own digit prefix. */
  lemma {:induction false} DigitPrefixAll(ds: string)
    requires forall i :: 0 <= i < |ds| ==> IsDigit(ds[i])
    ensures DigitPrefixLength(ds) == |ds|
    decreases |ds|
  {
    if |ds| > 0 {
      assert forall i :: 0 <= i < |ds[1..]| ==> IsDigit(ds[1..][i]) by {
        forall i | 0 <= i < |ds[1..]| ensures IsDigit(ds[1..][i]) { assert ds[1..][i] == ds[i + 1]; }
      }
      DigitPrefixAll(ds[1..]);
    }
  }

  /** Text that starts with neither white space, a sign, nor a digit reads
      as `NaN`: a `v`-prefixed tag among them. */
  lemma ParseIntNoDigit(s: string)
    requires |s| > 0 && !IsJsSpace(s[0]) && s[0] != '-' && s[0] != '+' && !IsDigit(s[0])
    ensures ParseInt(s) == NaN
  {
    assert TrimJsSpace(s) == s;
  }

  /** `parseInt` stops at the first character that is not a digit, reads
      `0x` as hexadecimal, and gives `NaN` for text starting with a letter. */
  lemma ParseIntVectors()
    ensures ParseInt("3-beta") == Num(3)
    ensures ParseInt("0x10") == Num(16)
    ensures ParseInt(" -7") == Num(-7)
    ensures ParseInt("v4") == NaN
    ensures ParseInt("") == NaN
  {
    ParseIntDigitsThen("3-beta", "3", "-beta");
    HexVector();
    assert TrimJsSpace(" -7") == TrimJsSpace("-7") == "-7";
    assert "-7"[1..] == "7";
    assert DigitPrefixLength("7") == 1;
    assert "7"[..1] == "7";
    ParseIntNoDigit("v4");
  }

  /** The parts read from a version with three dot-separated parts. */
  lemma PartsOfThree(version: string, a: string, b: string, c: string)
    requires '.' !in a && '.' !in b && '.' !in c
    requires version == a + "." + b + "." + c
    ensures ParseParts(version) == [ParseInt(a), ParseInt(b), ParseInt(c)]
  {
    SplitThree(a, b, c, '.');
    assert version == a + ['.'] + b + ['.'] + c;
  }

  /** Parts compare as numbers, not as text: 10 is above 9. */
  lemma CompareNumericVector(versionA: string, versionB: string)
    requires versionA == "1.10.0" && versionB == "1.9.0"
    ensures CompareSemver(versionA, versionB) == 1
  {
    PartsOfThree(versionA, "1", "10", "0");
    PartsOfThree(versionB, "1", "9", "0");
    DigitsVector("1", 1);
    DigitsVector("9", 9);
    DigitsVector("10", 10);
    var arr1 := ParseParts(versionA);
    var arr2 := ParseParts(versionB);
    assert Undecided(arr1[0], At(arr2, 0));
    assert Greater(arr1[1], At(arr2, 1));
    assert CompareFrom(arr1, arr2, 1) == 1;
  }

  /** The first differing part decides against the first version. */
  lemma CompareLowerVector(versionA: string, versionB: string)
    requires versionA == "1.2.3" && versionB == "1.2.4"
    ensures CompareSemver(versionA, versionB) == -1
  {
    PartsOfThree(versionA, "1", "2", "3");
    PartsOfThree(versionB, "1", "2", "4");
    DigitsVector("1", 1);
    DigitsVector("2", 2);
    DigitsVector("3", 3);
    DigitsVector("4", 4);
    var arr1 := ParseParts(versionA);
    var arr2 := ParseParts(versionB);
    assert Undecided(arr1[0], At(arr2, 0));
    assert Undecided(arr1[1], At(arr2, 1));
    assert Greater(At(arr2, 2), arr1[2]);
    assert CompareFrom(arr1, arr2, 2) == -1;
    assert CompareFrom(arr1, arr2, 1) == -1;
  }

  /** The walk covers only the first version's parts: a shorter first
      version that agrees on them compares equal. */
  lemma CompareShorterVector(versionA: string, versionB: string)
    requires versionA == "1.2" && versionB == "1.2.5"
    ensures CompareSemver(versionA, versionB) == 0
  {
    SplitCons("1", "2", '.');
    SplitNoSep("2", '.');
    assert versionA == "1" + ['.'] + "2";
    PartsOfThree(versionB, "1", "2", "5");
    DigitsVector("1", 1);
    DigitsVector("2", 2);
    var arr1 := ParseParts(versionA);
    var arr2 := ParseParts(versionB);
    assert arr1 == [Num(1), Num(2)];
    assert Undecided(arr1[0], At(arr2, 0));
    assert Undecided(arr1[1], At(arr2, 1));
    assert CompareFrom(arr1, arr2, 2) == 0;
    assert CompareFrom(arr1, arr2, 1) == 0;
  }

  /** A `v` prefix makes the first part `NaN`, which never decides: the
      later equal parts make the answer 0. */
  lemma ComparePrefixedVector(versionA: string, versionB: string)
    requires versionA == "v2.0.0" && versionB == "1.0.0"
    ensures CompareSemver(versionA, versionB) == 0
  {
    PartsOfThree(versionA, "v2", "0", "0");
    PartsOfThree(versionB, "1", "0", "0");
    ParseIntNoDigit("v2");
    var arr1 := ParseParts(versionA);
    var arr2 := ParseParts(versionB);
    assert Undecided(arr1[0], At(arr2, 0));
    assert Undecided(arr1[1], At(arr2, 1));
    assert Undecided(arr1[2], At(arr2, 2));
    assert CompareFrom(arr1, arr2, 3) == 0;
    assert CompareFrom(arr1, arr2, 2) == 0;
    assert CompareFrom(arr1, arr2, 1) == 0;
  }

  /** `0x10` is read as hexadecimal. */
  lemma HexVector()
    ensures ParseInt("0x10") == Num(16)
  {
    assert TrimJsSpace("0x10") == "0x10";
    assert "0x10"[2..] == "10";
    assert HexPrefixLength("10") == 2;
    assert "10"[..2] == "10";
    assert "10"[..1] == "1" && "1"[..0] == "";
    assert HexValue("1") == 1;
    assert HexValue("10") == 16;
  }

  /** A digit string standing alone reads as its value. */
  lemma DigitsVector(ds: string, v: nat)
    requires IsDigits(ds) && DecimalValue(ds) == v
    ensures ParseInt(ds) == Num(v)
  {
    ParseIntDigitsThen(ds, ds, "");
    assert ds + "" == ds;
  }

  /** The install script's decision: anything but 0 goes on to download
      the release binary; only 0 stops with "already up-to-date". */
  predicate ShouldDownload(latestVersion: string, currentVersion: string) {
    CompareSemver(latestVersion, currentVersion) != 0
  }

  /** An installed version equal to the latest release is never
      downloaded again. */
  lemma UpToDateKept(version: string)
    ensures !ShouldDownload(version, version)
  {
    CompareSelf(version);
  }

  /** A latest release older than the installed version (the answer -1,
      which the script's comment calls impossible) is still downloaded,
      replacing the newer binary. */
  lemma OlderReleaseDownloaded(latestVersion: string, currentVersion: string)
    requires latestVersion == "1.2.3" && currentVersion == "1.2.4"
    ensures ShouldDownload(latestVersion, currentVersion)
  {
    CompareLowerVector(latestVersion, currentVersion);
  }
}
