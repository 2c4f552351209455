/** `pkg/utils/npmrc`: reading the registry auth token out of `.npmrc`
    text, and choosing among the tokens found at the four configuration
    levels. */
module Npmrc {
  import opened Wrappers
  import opened Strings

  // ---------------------------------------------------------------------
  // ParseNpmrc

  /** The literal text of `^\/\/registry.npmjs.org/:_authToken=`. Its two
      dots are not escaped, so in the pattern they stand for any character
      but a line feed. */
  const AuthKey: string := "//registry.npmjs.org/:_authToken="

  /** The positions of the two unescaped dots of `AuthKey`. */
  predicate IsWildcard(i: int) {
    i == 10 || i == 16
  }

  /** Character `c` is allowed at position `i` of the key. */
  predicate KeyCharMatches(c: char, i: nat)
    requires i < |AuthKey|
  {
    if IsWildcard(i) then c != '\n' else c == AuthKey[i]
  }

  /** The key matches `line` from position `i` of the key on. */
  predicate KeyMatchesFrom(line: string, i: nat)
    requires i <= |AuthKey| <= |line|
    decreases |AuthKey| - i
  {
    i == |AuthKey| || (KeyCharMatches(line[i], i) && KeyMatchesFrom(line, i + 1))
  }

  /** `^\/\/registry.npmjs.org/:_authToken=(.*)$` matches the whole of
      `line`: the key (any non-line-feed character at the dots), then text
      without a line feed up to the end. */
  predicate IsAuthLine(line: string) {
    && |AuthKey| <= |line|
    && KeyMatchesFrom(line, 0)
    && '\n' !in line[|AuthKey|..]
  }

  /** The key matches from `i` on exactly when each of its remaining
      positions does. */
  lemma {:induction false} KeyMatchesAll(line: string, i: nat)
    requires i <= |AuthKey| <= |line|
    ensures KeyMatchesFrom(line, i) <==> forall j :: i <= j < |AuthKey| ==> KeyCharMatches(line[j], j)
    decreases |AuthKey| - i
  {
    if i < |AuthKey| {
      KeyMatchesAll(line, i + 1);
    }
  }

  /** An auth line starts with `//`, so it is neither blank nor a
      comment. */
  lemma AuthLineStart(clean: string)
    ensures IsAuthLine(clean) ==>
      HasPrefix(clean, "//") && !HasPrefix(clean, "#") && !HasPrefix(clean, ";")
  {
    if IsAuthLine(clean) {
      KeyMatchesAll(clean, 0);
      assert KeyCharMatches(clean[0], 0) && KeyCharMatches(clean[1], 1);
      assert clean[..2] == "//";
    }
  }

  /** What one trimmed line yields: blank lines and `#` or `;` comments
      are skipped, and a line starting `//` yields the capture of the
      pattern when it matches. The skips add nothing to the pattern: a
      matching line is neither blank nor a comment. */
  function LineToken(clean: string): (r: Option<string>)
    ensures r.Some? <==> IsAuthLine(clean)
    ensures r.Some? ==> r.value == clean[|AuthKey|..]
  {
    AuthLineStart(clean);
    if clean == "" then None
    else if HasPrefix(clean, "#") || HasPrefix(clean, ";") then None
    else if HasPrefix(clean, "//") && IsAuthLine(clean) then Some(clean[|AuthKey|..])
    else None
  }

  /** The token each line yields once trimmed, in order. */
  function LineTokens(lines: seq<string>): (ts: seq<Option<string>>)
    ensures |ts| == |lines|
  {
    seq(|lines|, j requires 0 <= j < |lines| => LineToken(TrimSpace(lines[j])))
  }

  /** The scan from index `i`: the first line that yields a token ends it,
      and running out of lines is the error "no token found". */
  function FirstToken(ts: seq<Option<string>>, i: nat): Result<string, string>
    requires i <= |ts|
    decreases |ts| - i
  {
    if i == |ts| then Failure("no token found")
    else if ts[i].Some? then Success(ts[i].value)
    else FirstToken(ts, i + 1)
  }

  /** `ParseNpmrc`: the scan over the lines of the text. */
  function ParseNpmrc(str: string): Result<string, string> {
    FirstToken(LineTokens(Split(str, '\n')), 0)
  }

  /** Index `k` holds the first token from index `i` on. */
  predicate FirstSomeAt(ts: seq<Option<string>>, i: nat, k: nat) {
    && i <= k < |ts|
    && ts[k].Some?
    && forall j :: i <= j < k ==> ts[j].None?
  }

  /** The scan fails exactly when no token follows `i`, and otherwise
      yields the first one. */
  lemma {:induction false} FirstTokenSpec(ts: seq<Option<string>>, i: nat)
    requires i <= |ts|
    ensures var r := FirstToken(ts, i);
      && (r.Failure? <==> forall j :: i <= j < |ts| ==> ts[j].None?)
      && (r.Failure? ==> r.error == "no token found")
      && (r.Success? ==> exists k: nat :: FirstSomeAt(ts, i, k) && r.value == ts[k].value)
    decreases |ts| - i
  {
    if i < |ts| {
      if ts[i].Some? {
        assert FirstSomeAt(ts, i, i);
      } else {
        FirstTokenSpec(ts, i + 1);
        var r := FirstToken(ts, i);
        if r.Success? {
          var k: nat :| FirstSomeAt(ts, i + 1, k) && r.value == ts[k].value;
          assert FirstSomeAt(ts, i, k);
        }
      }
    }
  }

  /** The trimmed line at index `k` is the first auth line. */
  predicate FirstAuthLine(lines: seq<string>, k: nat) {
    && k < |lines|
    && IsAuthLine(TrimSpace(lines[k]))
    && forall j :: 0 <= j < k ==> !IsAuthLine(TrimSpace(lines[j]))
  }

  /** The scan over the tokens of `lines` fails exactly when no trimmed
      line is an auth line, and otherwise yields the capture of the first
      one. */
  lemma LinesSpec(lines: seq<string>)
    ensures var r := FirstToken(LineTokens(lines), 0);
      && (r.Failure? <==> forall j :: 0 <= j < |lines| ==> !IsAuthLine(TrimSpace(lines[j])))
      && (r.Failure? ==> r.error == "no token found")
      && (r.Success? ==> exists k: nat :: FirstAuthLine(lines, k) && r.value == TrimSpace(lines[k])[|AuthKey|..])
  {
    var ts := LineTokens(lines);
    FirstTokenSpec(ts, 0);
    var r := FirstToken(ts, 0);
    forall j | 0 <= j < |lines| ensures ts[j].None? <==> !IsAuthLine(TrimSpace(lines[j])) {
      assert ts[j] == LineToken(TrimSpace(lines[j]));
    }
    if r.Success? {
      var k: nat :| FirstSomeAt(ts, 0, k) && r.value == ts[k].value;
      assert FirstAuthLine(lines, k) by {
        forall j | 0 <= j < k ensures !IsAuthLine(TrimSpace(lines[j])) {
          assert ts[j].None?;
        }
      }
    }
  }

  /** `ParseNpmrc` gives the capture of the first trimmed line that
      matches the auth-token pattern, or the error "no token found" when
      no line does (the Go function then returns the empty token). */
  lemma ParseNpmrcSpec(str: string)
    ensures var lines := Split(str, '\n'); var r := ParseNpmrc(str);
      && (r.Failure? <==> forall j :: 0 <= j < |lines| ==> !IsAuthLine(TrimSpace(lines[j])))
      && (r.Failure? ==> r.error == "no token found")
      && (r.Success? ==> exists k: nat :: FirstAuthLine(lines, k) && r.value == TrimSpace(lines[k])[|AuthKey|..])
  {
    assert ParseNpmrc(str) == FirstToken(LineTokens(Split(str, '\n')), 0);
    LinesSpec(Split(str, '\n'));
  }

  /** The token Go returns: the empty string alongside the error. */
  function TokenOf(r: Result<string, string>): string {
    match r
    case Success(t) => t
    case Failure(_) => ""
  }

  /** A returned token holds no line feed and does not end in white
      space: it is the tail of a trimmed line. */
  lemma TokenShape(str: string)
    requires ParseNpmrc(str).Success?
    ensures var t := ParseNpmrc(str).value;
      '\n' !in t && (t == "" || !IsSpace(t[|t| - 1]))
  {
    var lines := Split(str, '\n');
    ParseNpmrcSpec(str);
    var k: nat :| FirstAuthLine(lines, k) && ParseNpmrc(str).value == TrimSpace(lines[k])[|AuthKey|..];
    CaptureShape(lines[k]);
  }

  /** The capture of a trimmed auth line holds no line feed and does not
      end in white space. */
  lemma CaptureShape(line: string)
    requires IsAuthLine(TrimSpace(line))
    ensures var t := TrimSpace(line)[|AuthKey|..];
      '\n' !in t && (t == "" || !IsSpace(t[|t| - 1]))
  {
    var clean := TrimSpace(line);
    TrimSpaceTrims(line);
    var t := clean[|AuthKey|..];
    if t != "" {
      assert t[|t| - 1] == clean[|clean| - 1];
    }
  }

  /** Scanning `x + y` from `|x| + i` is scanning `y` from `i`. */
  lemma {:induction false} FirstTokenShift(x: seq<Option<string>>, y: seq<Option<string>>, i: nat)
    requires i <= |y|
    ensures FirstToken(x + y, |x| + i) == FirstToken(y, i)
    decreases |y| - i
  {
    if i < |y| {
      assert (x + y)[|x| + i] == y[i];
      FirstTokenShift(x, y, i + 1);
    }
  }

  /** The scan passes over a stretch without tokens. */
  lemma {:induction false} FirstTokenSkip(x: seq<Option<string>>, y: seq<Option<string>>, i: nat)
    requires i <= |x|
    requires forall j :: i <= j < |x| ==> x[j].None?
    ensures FirstToken(x + y, i) == FirstToken(y, 0)
    decreases |x| - i
  {
    if i < |x| {
      assert (x + y)[i] == x[i];
      FirstTokenSkip(x, y, i + 1);
    } else {
      FirstTokenShift(x, y, 0);
    }
  }

  /** The scan stops inside `x` when `x` holds a token. */
  lemma {:induction false} FirstTokenStop(x: seq<Option<string>>, y: seq<Option<string>>, i: nat)
    requires i <= |x|
    requires exists j :: i <= j < |x| && x[j].Some?
    ensures FirstToken(x + y, i) == FirstToken(x, i)
    decreases |x| - i
  {
    assert (x + y)[i] == x[i];
    if x[i].None? {
      FirstTokenStop(x, y, i + 1);
    }
  }

  /** A line without a token can be removed without changing the scan. */
  lemma NoneRemoved(x: seq<Option<string>>, y: seq<Option<string>>)
    ensures FirstToken(x + ([None] + y), 0) == FirstToken(x + y, 0)
  {
    if exists j :: 0 <= j < |x| && x[j].Some? {
      FirstTokenStop(x, [None] + y, 0);
      FirstTokenStop(x, y, 0);
    } else {
      FirstTokenSkip(x, [None] + y, 0);
      FirstTokenSkip(x, y, 0);
      FirstTokenSkip([None], y, 0);
    }
  }

  /** The tokens of two runs of lines, one after the other. */
  lemma LineTokensAppend(a: seq<string>, b: seq<string>)
    ensures LineTokens(a + b) == LineTokens(a) + LineTokens(b)
  {
    var l := LineTokens(a + b);
    var r := LineTokens(a) + LineTokens(b);
    forall j | 0 <= j < |l| ensures l[j] == r[j] {
      if j < |a| {
        assert (a + b)[j] == a[j];
      } else {
        assert (a + b)[j] == b[j - |a|];
      }
    }
  }

  /** A line that does not match the pattern once trimmed (a blank line, a
      comment, another `//` setting) can be removed without changing the
      result: such lines are skipped and scanning goes on. */
  lemma NonAuthLineIgnored(x: string, line: string, y: string)
    requires '\n' !in line && !IsAuthLine(TrimSpace(line))
    ensures ParseNpmrc(x + "\n" + line + "\n" + y) == ParseNpmrc(x + "\n" + y)
  {
    var a := Split(x, '\n');
    var b := Split(y, '\n');
    SplitAround(x, line, y);
    LineTokensAppend([line], b);
    LineTokensAppend(a, [line] + b);
    LineTokensAppend(a, b);
    assert LineTokens([line]) == [None];
    NoneRemoved(LineTokens(a), LineTokens(b));
  }

  /** The lines of a text with one more line in the middle. */
  lemma SplitAround(x: string, line: string, y: string)
    requires '\n' !in line
    ensures Split(x + "\n" + line + "\n" + y, '\n') == Split(x, '\n') + ([line] + Split(y, '\n'))
    ensures Split(x + "\n" + y, '\n') == Split(x, '\n') + Split(y, '\n')
  {
    SplitAppend(line, y, '\n');
    SplitNoSep(line, '\n');
    assert x + "\n" + line + "\n" + y == x + ['\n'] + (line + ['\n'] + y);
    SplitAppend(x, line + ['\n'] + y, '\n');
    assert x + "\n" + y == x + ['\n'] + y;
    SplitAppend(x, y, '\n');
  }

  /** Text of one line yields what that line yields. */
  lemma OneLine(line: string)
    requires '\n' !in line
    ensures ParseNpmrc(line) == match LineToken(TrimSpace(line))
      case Some(t) => Success(t)
      case None => Failure("no token found")
  {
    SplitNoSep(line, '\n');
    var ts := LineTokens([line]);
    assert ts == [LineToken(TrimSpace(line))];
    assert FirstToken(ts, 1) == Failure("no token found");
  }

  /** A single line made of the key and a token yields that token. */
  lemma SingleTokenLine(t: string)
    requires '\n' !in t && (t == "" || !IsSpace(t[|t| - 1]))
    ensures ParseNpmrc(AuthKey + t) == Success(t)
  {
    var line := AuthKey + t;
    AuthLineOf(t);
    TrimSpaceKeeps(line);
    OneLine(line);
  }

  /** The key followed by a token is an auth line that is its own trim and
      holds no line feed. */
  lemma AuthLineOf(t: string)
    requires '\n' !in t && (t == "" || !IsSpace(t[|t| - 1]))
    ensures var line := AuthKey + t;
      && IsAuthLine(line) && line[|AuthKey|..] == t && '\n' !in line
      && !IsSpace(line[0]) && !IsSpace(line[|line| - 1])
  {
    var line := AuthKey + t;
    assert line[0] == '/';
    assert line[|line| - 1] == if t == "" then '=' else t[|t| - 1];
    assert '\n' !in line by {
      forall k | 0 <= k < |line| ensures line[k] != '\n' {
        if k >= |AuthKey| { assert line[k] == t[k - |AuthKey|]; }
      }
    }
    assert line[|AuthKey|..] == t;
    KeyMatchesAll(line, 0);
  }

  /** Vectors of `parseNpmrc_test.go`: a well-formed line, and a line with
      nothing after `=`, which yields the empty token without an error. */
  lemma TokenVectors()
    ensures ParseNpmrc(AuthKey + "npm_1234") == Success("npm_1234")
    ensures ParseNpmrc(AuthKey) == Success("")
  {
    SingleTokenLine("npm_1234");
    SingleTokenLine("");
    assert AuthKey + "" == AuthKey;
  }

  /** A line that starts with neither white space nor `/` yields no
      token. */
  lemma NoTokenLine(line: string)
    requires '\n' !in line
    requires line == [] || (!IsSpace(line[0]) && !IsSpace(line[|line| - 1]) && line[0] != '/')
    ensures ParseNpmrc(line) == Failure("no token found")
  {
    TrimSpaceKeeps(line);
    NotAuthLine(line);
    OneLine(line);
  }

  /** A line that does not start with `/` is not an auth line. */
  lemma NotAuthLine(line: string)
    requires line == [] || line[0] != '/'
    ensures !IsAuthLine(line)
  {
    if line != [] && |AuthKey| <= |line| {
      assert !KeyCharMatches(line[0], 0);
    }
  }

  /** Vector of `parseNpmrc_test.go`: empty text has no token. */
  lemma EmptyTextVector()
    ensures ParseNpmrc("") == Failure("no token found")
  {
    NoTokenLine("");
  }

  /** Vector of `parseNpmrc_test.go`: a line without the leading `//`
      has no token. */
  lemma NoSlashesVector()
    ensures ParseNpmrc("registry.npmjs.org/authToken=npm_1234") == Failure("no token found")
  {
    NoTokenLine("registry.npmjs.org/authToken=npm_1234");
  }

  /** Vector of `parseNpmrc_test.go`: a `;` comment has no token. */
  lemma SemicolonCommentVector()
    ensures ParseNpmrc("; registry.npmjs.org/authToken=npm_1234") == Failure("no token found")
  {
    NoTokenLine("; registry.npmjs.org/authToken=npm_1234");
  }

  /** Vector of `parseNpmrc_test.go`: a `#` comment has no token. */
  lemma HashCommentVector()
    ensures ParseNpmrc("# registry.npmjs.org/authToken=npm_1234") == Failure("no token found")
  {
    NoTokenLine("# registry.npmjs.org/authToken=npm_1234");
  }

  /** The unescaped dots of the pattern accept any character but a line
      feed: `//registry-npmjs-org/:_authToken=…` is read as an auth line
      too. */
  lemma WildcardDots(a: char, b: char, t: string)
    requires a != '\n' && b != '\n' && '\n' !in t
    ensures IsAuthLine(AuthKey[..10] + [a] + AuthKey[11..16] + [b] + AuthKey[17..] + t)
  {
    var line := AuthKey[..10] + [a] + AuthKey[11..16] + [b] + AuthKey[17..] + t;
    forall i | 0 <= i < |AuthKey| ensures KeyCharMatches(line[i], i) {
      if i < 10 { assert line[i] == AuthKey[..10][i]; }
      else if 11 <= i < 16 { assert line[i] == AuthKey[11..16][i - 11]; }
      else if 17 <= i { assert line[i] == AuthKey[17..][i - 17]; }
    }
    assert line[|AuthKey|..] == t;
    KeyMatchesAll(line, 0);
  }

  // ---------------------------------------------------------------------
  // GetRelevantNpmrcToken

  /** The configuration levels, and the empty level reported when no
      token is set. */
  datatype NpmrcTokenLevel = Project | User | Global | Builtin | NoLevel

  /** The tokens found at each level; `fileExists` is the Go field
      `Exists`, whether any `.npmrc` was found. */
  datatype NpmrcTokens = NpmrcTokens(fileExists: bool, project: string, user: string, global: string, builtin: string)

  /** The token a level names. */
  function TokenAt(tokens: NpmrcTokens, level: NpmrcTokenLevel): string {
    match level
    case Project => tokens.project
    case User => tokens.user
    case Global => tokens.global
    case Builtin => tokens.builtin
    case NoLevel => ""
  }

  /** The order of preference of the levels: project, user, global,
      builtin. */
  function Precedence(level: NpmrcTokenLevel): nat {
    match level
    case Project => 0
    case User => 1
    case Global => 2
    case Builtin => 3
    case NoLevel => 4
  }

  /** `GetRelevantNpmrcToken`: the token of the most preferred level that
      has one, with that level; the empty token and level when none has. */
  function GetRelevantNpmrcToken(tokens: NpmrcTokens): (r: (string, NpmrcTokenLevel))
    ensures r.0 == TokenAt(tokens, r.1)
    ensures r.1 == NoLevel <==> r.0 == ""
    ensures forall l: NpmrcTokenLevel :: Precedence(l) < Precedence(r.1) ==> TokenAt(tokens, l) == ""
  {
    if tokens.project != "" then (tokens.project, Project)
    else if tokens.user != "" then (tokens.user, User)
    else if tokens.global != "" then (tokens.global, Global)
    else if tokens.builtin != "" then (tokens.builtin, Builtin)
    else ("", NoLevel)
  }

  /** A non-empty project token wins whatever the other fields hold. */
  lemma ProjectWins(tokens: NpmrcTokens)
    requires tokens.project != ""
    ensures GetRelevantNpmrcToken(tokens) == (tokens.project, Project)
  {
    var r := GetRelevantNpmrcToken(tokens);
    assert Precedence(r.1) <= Precedence(Project);
  }

  /** The choice is the unique level with a token and no preferred level
      with one: any level meeting both is the level returned. */
  lemma ChoiceUnique(tokens: NpmrcTokens, l: NpmrcTokenLevel)
    requires l != NoLevel && TokenAt(tokens, l) != ""
    requires forall k: NpmrcTokenLevel :: Precedence(k) < Precedence(l) ==> TokenAt(tokens, k) == ""
    ensures GetRelevantNpmrcToken(tokens) == (TokenAt(tokens, l), l)
  {
    var r := GetRelevantNpmrcToken(tokens);
    assert !(Precedence(l) < Precedence(r.1));
    assert !(Precedence(r.1) < Precedence(l));
    assert Precedence(r.1) == Precedence(l);
  }

  /** `Exists` is never consulted. */
  lemma ExistsIgnored(tokens: NpmrcTokens, e: bool)
    ensures GetRelevantNpmrcToken(tokens.(fileExists := e)) == GetRelevantNpmrcToken(tokens)
  {
  }

  /** Vectors of `getRelevantNpmrcToken_test.go`. */
  lemma RelevantTokenVectors()
    ensures GetRelevantNpmrcToken(NpmrcTokens(false, "", "", "", "")) == ("", NoLevel)
    ensures GetRelevantNpmrcToken(NpmrcTokens(true, "npm_token", "", "", "")) == ("npm_token", Project)
    ensures GetRelevantNpmrcToken(NpmrcTokens(true, "", "npm_token", "", "")) == ("npm_token", User)
    ensures GetRelevantNpmrcToken(NpmrcTokens(true, "", "", "npm_token", "")) == ("npm_token", Global)
    ensures GetRelevantNpmrcToken(NpmrcTokens(true, "", "", "", "npm_token")) == ("npm_token", Builtin)
  {
  }
}
