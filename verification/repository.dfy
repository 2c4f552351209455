/** `pkg/utils/repository`: turning the `repository.url` of a registry
    document into a browsable `https://` address, and reading the owner and
    project name back out of one. Each regular expression of the pipeline
    is written out as the text it keeps; Go's `.` stops at a line feed, so
    the stages cut at the first `'\n'` where the pattern does. */
module Repository {
  import opened Strings

  predicate IsNewline(c: char) {
    c == '\n'
  }

  /** What `.*` matches at the start of `s`: the text before the first line
      feed. */
  function FirstLine(s: string): string {
    UpTo(s, IsNewline)
  }

  /** `#.*` replaced by nothing everywhere (`${1}` names no group, so it
      expands to nothing): each `#` goes with the rest of its line. */
  function StripFragments(s: string): (r: string)
    ensures '#' !in r
    decreases |s|
  {
    if |s| == 0 then ""
    else if s[0] == '#' then
      var n := |FirstLine(s)|;
      StripFragments(s[n..])
    else [s[0]] + StripFragments(s[1..])
  }

  /** `(git[+@])?(.*)`, group 2: one leading `git+` or `git@` dropped, then
      the first line. The pattern matches every string, so the `nil` branch
      after it never runs. */
  function DropGitPrefix(s: string): string {
    FirstLine(if HasPrefix(s, "git+") then s[4..] else TrimPrefix(s, "git@"))
  }

  /** `((ssh:\/\/git@)?(git:\/\/)?)(.*)`, group 4: a leading `ssh://git@`,
      then a leading `git://`, dropped, then the first line. This pattern
      also matches every string. */
  function DropScheme(s: string): string {
    FirstLine(TrimPrefix(TrimPrefix(s, "ssh://git@"), "git://"))
  }

  /** The `https://` scheme is added when missing. */
  function WithHttps(s: string): string {
    if HasPrefix(s, "https://") then s else "https://" + s
  }

  /** Everything of the pipeline after the fragment is gone: the git
      prefix, one `.git` suffix, the ssh and git schemes, `.com:` to
      `.com/`, and the `https://` scheme. */
  function Canonicalise(s: string): string {
    var a := DropGitPrefix(s);
    var b := TrimSuffix(a, ".git");
    var c := DropScheme(b);
    var d := ReplaceAll(c, ".com:", ".com/");
    WithHttps(d)
  }

  /** `GetRepositoryUrl`. */
  function GetRepositoryUrl(url: string): string {
    Canonicalise(StripFragments(url))
  }

  /** The first line of `s` holds no line feed and is a prefix of `s`. */
  lemma FirstLineShape(s: string)
    ensures '\n' !in FirstLine(s)
    ensures HasPrefix(s, FirstLine(s))
  {
    var r := FirstLine(s);
    forall k | 0 <= k < |r| ensures r[k] != '\n' {
      assert !IsNewline(r[k]);
    }
  }

  /** Text without a line feed is its own first line. */
  lemma {:induction false} FirstLineWhole(s: string)
    requires '\n' !in s
    ensures FirstLine(s) == s
    decreases |s|
  {
    if |s| > 0 {
      assert s[0] in s;
      assert '\n' !in s[1..] by {
        forall k | 0 <= k < |s[1..]| ensures s[1..][k] != '\n' { assert s[1..][k] == s[k + 1]; }
      }
      FirstLineWhole(s[1..]);
      assert [s[0]] + s[1..] == s;
    }
  }

  /** A character missing from `s` is missing from any slice of it. */
  lemma SliceKeepsOut(s: string, i: nat, j: nat, c: char)
    requires i <= j <= |s| && c !in s
    ensures c !in s[i..j]
  {
    forall k | 0 <= k < j - i ensures s[i..j][k] != c {
      assert s[i..j][k] == s[i + k];
    }
  }

  /** A character missing from `s` is missing from its first line. */
  lemma FirstLineKeepsOut(s: string, c: char)
    requires c !in s
    ensures c !in FirstLine(s)
  {
    FirstLineShape(s);
    SliceKeepsOut(s, 0, |FirstLine(s)|, c);
    assert FirstLine(s) == s[0..|FirstLine(s)|];
  }

  /** A character missing from `s` is missing once a prefix is dropped. */
  lemma TrimPrefixKeepsOut(s: string, p: string, c: char)
    requires c !in s
    ensures c !in TrimPrefix(s, p)
  {
    if HasPrefix(s, p) {
      SliceKeepsOut(s, |p|, |s|, c);
      assert s[|p|..] == s[|p|..|s|];
    }
  }

  /** The git-prefix stage adds no character and leaves one line. */
  lemma DropGitPrefixKeepsOut(s: string, c: char)
    requires c !in s
    ensures c !in DropGitPrefix(s) && '\n' !in DropGitPrefix(s)
  {
    var t := if HasPrefix(s, "git+") then s[4..] else TrimPrefix(s, "git@");
    if HasPrefix(s, "git+") {
      TrimPrefixKeepsOut(s, "git+", c);
    } else {
      TrimPrefixKeepsOut(s, "git@", c);
    }
    FirstLineKeepsOut(t, c);
    FirstLineShape(t);
  }

  /** The `.git` stage adds no character. */
  lemma TrimSuffixKeepsOut(s: string, c: char)
    requires c !in s
    ensures c !in TrimSuffix(s, ".git")
  {
    if HasSuffix(s, ".git") {
      SliceKeepsOut(s, 0, |s| - 4, c);
      assert s[..|s| - 4] == s[0..|s| - 4];
    }
  }

  /** The scheme stage adds no character. */
  lemma DropSchemeKeepsOut(s: string, c: char)
    requires c !in s
    ensures c !in DropScheme(s)
  {
    TrimPrefixKeepsOut(s, "ssh://git@", c);
    TrimPrefixKeepsOut(TrimPrefix(s, "ssh://git@"), "git://", c);
    FirstLineKeepsOut(TrimPrefix(TrimPrefix(s, "ssh://git@"), "git://"), c);
  }

  /** The stages after the fragment strip add neither a `#` nor a line
      feed, and the result carries the `https://` scheme. */
  lemma CanonicaliseShape(s: string)
    requires '#' !in s
    ensures HasPrefix(Canonicalise(s), "https://")
    ensures '#' !in Canonicalise(s) && '\n' !in Canonicalise(s)
  {
    var a := DropGitPrefix(s);
    DropGitPrefixKeepsOut(s, '#');
    TrimSuffixKeepsOut(a, '#');
    TrimSuffixKeepsOut(a, '\n');
    var b := TrimSuffix(a, ".git");
    DropSchemeKeepsOut(b, '#');
    DropSchemeKeepsOut(b, '\n');
    var c := DropScheme(b);
    ReplaceAllKeepsOut(c, ".com:", ".com/", '#');
    ReplaceAllKeepsOut(c, ".com:", ".com/", '\n');
  }

  /** Every result is an `https://` address on one line without a
      fragment. */
  lemma GetRepositoryUrlShape(url: string)
    ensures HasPrefix(GetRepositoryUrl(url), "https://")
    ensures '#' !in GetRepositoryUrl(url)
    ensures '\n' !in GetRepositoryUrl(url)
  {
    CanonicaliseShape(StripFragments(url));
  }

  /** Text before the first `#` passes the fragment strip untouched. */
  lemma {:induction false} StripFragmentsKeep(x: string, y: string)
    requires '#' !in x
    ensures StripFragments(x + y) == x + StripFragments(y)
    decreases |x|
  {
    if |x| > 0 {
      assert x[0] in x;
      assert (x + y)[1..] == x[1..] + y;
      assert '#' !in x[1..] by {
        forall k | 0 <= k < |x[1..]| ensures x[1..][k] != '#' { assert x[1..][k] == x[k + 1]; }
      }
      StripFragmentsKeep(x[1..], y);
      assert [x[0]] + x[1..] == x;
    } else {
      assert x + y == y;
    }
  }

  /** A fragment running to the end of the line disappears. */
  lemma StripFragmentsTail(frag: string)
    requires |frag| > 0 && frag[0] == '#' && '\n' !in frag
    ensures StripFragments(frag) == ""
  {
    FirstLineWhole(frag);
    assert frag[|frag|..] == "";
  }

  /** The text after the stripped fragment does not affect the address:
      `...r.git#main` and `...r.git` give the same result. */
  lemma FragmentIgnored(url: string, frag: string)
    requires '#' !in url
    requires '\n' !in frag
    ensures GetRepositoryUrl(url + "#" + frag) == GetRepositoryUrl(url)
  {
    StripFragmentsKeep(url, "#" + frag);
    StripFragmentsTail("#" + frag);
    StripFragmentsKeep(url, "");
    assert url + "#" + frag == url + ("#" + frag);
    assert url + "" == url;
  }

  /** Characters that may appear in a plain host name. */
  predicate IsHostChar(c: char) {
    ('a' <= c <= 'z') || ('A' <= c <= 'Z') || ('0' <= c <= '9') || c == '-'
  }

  /** The host, `.com:` or `.com/`, and a path: the core of each address
      form the pipeline is written for. */
  function HostPath(host: string, com: string, path: string): string {
    host + (com + path)
  }

  /** A non-empty host made of plain host characters. */
  predicate PlainHost(host: string) {
    && |host| > 0
    && (forall i :: 0 <= i < |host| ==> IsHostChar(host[i]))
  }

  /** A plain host and a path with no dot, `#` or line feed. */
  predicate PlainParts(host: string, path: string) {
    && PlainHost(host)
    && '.' !in path && '#' !in path && '\n' !in path
  }

  /** Two strings that differ at an index below `|p|` do not share the
      prefix `p`. */
  lemma DifferAt(v: string, p: string, k: nat)
    requires k < |p| && k < |v| && v[k] != p[k]
    ensures !HasPrefix(v, p)
  {
    if |p| <= |v| {
      assert v[..|p|][k] == v[k];
    }
  }

  /** The two halves of a concatenation. */
  lemma Halves(a: string, b: string)
    ensures (a + b)[..|a|] == a && (a + b)[|a|..] == b
  {
  }

  /** Regrouping a concatenation. */
  lemma Regroup(a: string, b: string, c: string)
    ensures a + (b + c) == (a + b) + c
  {
  }

  /** A prefix with a non-host character at `k`, and no dot up to it, does
      not start the host-and-path core. */
  lemma HostPathNoPrefix(host: string, com: string, path: string, p: string, k: nat)
    requires PlainHost(host) && (com == ".com/" || com == ".com:")
    requires k < |p| && !IsHostChar(p[k])
    requires forall i :: 0 <= i <= k ==> p[i] != '.'
    ensures !HasPrefix(HostPath(host, com, path), p)
  {
    var v := HostPath(host, com, path);
    if |host| <= k {
      assert v[|host|] == com[0] == '.';
      DifferAt(v, p, |host|);
    } else {
      assert v[k] == host[k];
      DifferAt(v, p, k);
    }
  }

  /** The host-and-path core starts with neither scheme `DropScheme`
      removes, whatever the path. */
  lemma HostPathNoScheme(host: string, com: string, path: string)
    requires PlainHost(host) && (com == ".com/" || com == ".com:")
    ensures !HasPrefix(HostPath(host, com, path), "ssh://git@")
    ensures !HasPrefix(HostPath(host, com, path), "git://")
  {
    var ssh := "ssh://git@";
    assert ssh[0] == 's' && ssh[1] == 's' && ssh[2] == 'h' && ssh[3] == ':';
    HostPathNoPrefix(host, com, path, ssh, 3);
    var git := "git://";
    assert git[0] == 'g' && git[1] == 'i' && git[2] == 't' && git[3] == ':';
    HostPathNoPrefix(host, com, path, git, 3);
  }

  /** The host-and-path core holds no `#` or line feed, no dot after the
      host, and so does not end in `.git`. */
  lemma HostPathChars(host: string, com: string, path: string)
    requires PlainParts(host, path) && (com == ".com/" || com == ".com:")
    ensures var v := HostPath(host, com, path);
      '#' !in v && '\n' !in v && |v| >= 4 && !HasSuffix(v, ".git")
  {
    var v := HostPath(host, com, path);
    var w := com + path;
    forall i | 0 <= i < |v| ensures v[i] != '#' && v[i] != '\n' && (i > |host| ==> v[i] != '.') {
      if i < |host| {
        assert v[i] == host[i] && IsHostChar(host[i]);
      } else if i < |host| + 5 {
        assert v[i] == w[i - |host|];
      } else {
        assert v[i] == path[i - |host| - 5] && path[i - |host| - 5] in path;
      }
    }
    assert v[|v| - 4] != '.';
    assert v[|v| - 4..][0] == v[|v| - 4];
  }

  /** The host-and-path core starts with none of the prefixes the pipeline
      drops, and contains no `#`, line feed or `.git` ending. */
  lemma HostPathFacts(host: string, com: string, path: string)
    requires PlainParts(host, path) && (com == ".com/" || com == ".com:")
    ensures var v := HostPath(host, com, path);
      && !HasPrefix(v, "git+") && !HasPrefix(v, "git@")
      && !HasPrefix(v, "ssh://git@") && !HasPrefix(v, "git://")
      && !HasPrefix(v, "https://")
      && '#' !in v && '\n' !in v && |v| >= 4 && !HasSuffix(v, ".git")
  {
    HostPathNoPrefix(host, com, path, "git+", 3);
    HostPathNoPrefix(host, com, path, "git@", 3);
    HostPathNoPrefix(host, com, path, "ssh://git@", 3);
    HostPathNoPrefix(host, com, path, "git://", 3);
    HostPathNoPrefix(host, com, path, "https://", 5);
    HostPathChars(host, com, path);
  }

  /** A path without a dot is left alone by the replacement. */
  lemma ReplacePath(path: string)
    requires '.' !in path
    ensures ReplaceAll(path, ".com:", ".com/") == path
  {
    ReplaceAllSkip(path, "", ".com:", ".com/");
    assert path + "" == path;
  }

  /** `.com:` in front of a dot-free path becomes `.com/`. */
  lemma ReplaceComColon(path: string)
    requires '.' !in path
    ensures ReplaceAll(".com:" + path, ".com:", ".com/") == ".com/" + path
  {
    var y := ".com:" + path;
    ReplacePath(path);
    assert y[..5] == ".com:";
    assert y[5..] == path;
  }

  /** `.com/` in front of a dot-free path stays. */
  lemma ReplaceComSlash(path: string)
    requires '.' !in path
    ensures ReplaceAll(".com/" + path, ".com:", ".com/") == ".com/" + path
  {
    var y := ".com/" + path;
    ReplacePath(path);
    DifferAt(y, ".com:", 4);
    assert y[1..] == "com/" + path;
    ReplaceAllSkip("com/", path, ".com:", ".com/");
    assert [y[0]] + ("com/" + path) == y;
  }

  /** `.com:` becomes `.com/` in the host-and-path core, and nothing else
      changes, behind a lead without a dot. */
  lemma ReplaceHostPath(lead: string, host: string, com: string, path: string)
    requires PlainParts(host, path) && (com == ".com/" || com == ".com:")
    requires '.' !in lead
    ensures ReplaceAll(lead + HostPath(host, com, path), ".com:", ".com/") == lead + HostPath(host, ".com/", path)
  {
    ReplaceAllSkip(lead, HostPath(host, com, path), ".com:", ".com/");
    assert '.' !in host by {
      forall i | 0 <= i < |host| ensures host[i] != '.' { assert IsHostChar(host[i]); }
    }
    ReplaceAllSkip(host, com + path, ".com:", ".com/");
    if com == ".com:" {
      ReplaceComColon(path);
    } else {
      ReplaceComSlash(path);
    }
  }

  /** A leading `git://` is dropped by the scheme stage. */
  lemma GitSchemeDropped(x: string)
    ensures DropScheme("git://" + x) == FirstLine(x)
  {
    var y := "git://" + x;
    DifferAt(y, "ssh://git@", 0);
    Halves("git://", x);
  }

  /** A leading `ssh://git@` is dropped, and then a `git://` behind it. */
  lemma SshThenGitDropped(x: string)
    ensures DropScheme("ssh://git@" + x) == FirstLine(TrimPrefix(x, "git://"))
  {
    Halves("ssh://git@", x);
  }

  /** Text that starts with neither scheme keeps all of its first line. */
  lemma NoSchemeKept(x: string)
    requires !HasPrefix(x, "ssh://git@") && !HasPrefix(x, "git://")
    ensures DropScheme(x) == FirstLine(x)
  {
  }

  /** Replaced text that starts with a dot-free `q` came from text that
      starts with `q`, since every replacement starts with a dot. */
  lemma {:induction false} ReplacedPrefix(t: string, q: string)
    ensures '.' !in q && HasPrefix(ReplaceAll(t, ".com:", ".com/"), q) ==> HasPrefix(t, q)
    decreases |q|
  {
    if |q| > 0 {
      assert q[0] in q;
    }
    if |t| > 0 && HasPrefix(t, ".com:") {
      assert ReplaceAll(t, ".com:", ".com/")[0] == '.';
    }
    if |q| > 0 && |t| > 0 && !HasPrefix(t, ".com:") && '.' !in q && HasPrefix(ReplaceAll(t, ".com:", ".com/"), q) {
      var r := ReplaceAll(t, ".com:", ".com/");
      assert r == [t[0]] + ReplaceAll(t[1..], ".com:", ".com/");
      assert q[0] in q;
      assert '.' !in q[1..] by {
        forall k | 0 <= k < |q[1..]| ensures q[1..][k] != '.' { assert q[1..][k] == q[k + 1] && q[k + 1] in q; }
      }
      assert HasPrefix(ReplaceAll(t[1..], ".com:", ".com/"), q[1..]) by {
        assert r[1..|q|] == q[1..];
      }
      ReplacedPrefix(t[1..], q[1..]);
      assert t[..|q|] == [t[0]] + t[1..][..|q| - 1];
    }
  }

  /** Every `.com:` becomes `.com/`, and the replacement forms no new
      `.com:`: none is left. */
  lemma {:induction false} NoComColonLeft(s: string)
    ensures !Contains(ReplaceAll(s, ".com:", ".com/"), ".com:")
    decreases |s|
  {
    var r := ReplaceAll(s, ".com:", ".com/");
    if |s| == 0 {
      assert r == "";
    } else if HasPrefix(s, ".com:") {
      var r' := ReplaceAll(s[5..], ".com:", ".com/");
      NoComColonLeft(s[5..]);
      assert r == ".com/" + r';
      forall i | 0 <= i <= |r| - 5 ensures !HasPrefix(r[i..], ".com:") {
        if i == 0 {
          assert r[i..][4] == '/';
        } else if i < 5 {
          assert r[i..][0] == r[i] && r[i] != '.';
        } else {
          assert r[i..] == r'[i - 5..];
        }
      }
    } else {
      var r' := ReplaceAll(s[1..], ".com:", ".com/");
      NoComColonLeft(s[1..]);
      assert r == [s[0]] + r';
      forall i | 0 <= i <= |r| - 5 ensures !HasPrefix(r[i..], ".com:") {
        if i == 0 {
          ReplacedPrefix(s[1..], "com:");
          assert r[0] == s[0];
          assert s[0] == '.' && HasPrefix(s[1..], "com:") ==> HasPrefix(s, ".com:") by {
            if |s| >= 5 { assert s[..5] == [s[0]] + s[1..][..4]; }
          }
          assert s[0] != '.' || !HasPrefix(r', "com:");
          assert r[i..] == r;
          assert |r| >= 5 && r[..5] == ".com:" ==> |r'| >= 4 && r'[..4] == "com:" by {
            if |r| >= 5 {
              assert r[..5] == [r[0]] + r'[..4];
              assert r'[..4] == r[..5][1..];
              assert ".com:"[1..] == "com:";
            }
          }
        } else {
          assert r[i..] == r'[i - 1..];
        }
      }
    }
  }

  /** The replacement keeps the length and changes nothing but the `:` of
      a `.com:`, which it turns into `/`. */
  lemma {:induction false} ComColonOnly(s: string)
    ensures var r := ReplaceAll(s, ".com:", ".com/");
      && |r| == |s|
      && forall i :: 0 <= i < |s| ==>
        r[i] == s[i] || (s[i] == ':' && r[i] == '/' && 4 <= i && s[i - 4..i] == ".com")
    decreases |s|
  {
    var r := ReplaceAll(s, ".com:", ".com/");
    if |s| == 0 {
    } else if HasPrefix(s, ".com:") {
      var t := s[5..];
      var r' := ReplaceAll(t, ".com:", ".com/");
      ComColonOnly(t);
      assert r == ".com/" + r';
      assert s == ".com:" + t by { assert s[..5] == ".com:"; }
      forall i | 0 <= i < |s|
        ensures r[i] == s[i] || (s[i] == ':' && r[i] == '/' && 4 <= i && s[i - 4..i] == ".com")
      {
        if i >= 5 {
          var j := i - 5;
          assert r[i] == r'[j] && s[i] == t[j];
          if r'[j] != t[j] {
            assert s[i - 4..i] == t[j - 4..j];
          }
        } else if i == 4 {
          assert s[0..4] == ".com";
        }
      }
    } else {
      var t := s[1..];
      var r' := ReplaceAll(t, ".com:", ".com/");
      ComColonOnly(t);
      assert r == [s[0]] + r';
      forall i | 0 <= i < |s|
        ensures r[i] == s[i] || (s[i] == ':' && r[i] == '/' && 4 <= i && s[i - 4..i] == ".com")
      {
        if i >= 1 {
          var j := i - 1;
          assert r[i] == r'[j] && s[i] == t[j];
          if r'[j] != t[j] {
            assert s[i - 4..i] == t[j - 4..j];
          }
        }
      }
    }
  }

  /** The `https://` scheme is in front afterwards, it is added at most
      once, the text follows it unchanged, and a second pass changes
      nothing. */
  lemma HttpsOnce(s: string)
    ensures HasPrefix(WithHttps(s), "https://")
    ensures HasSuffix(WithHttps(s), s) && |WithHttps(s)| <= |s| + 8
    ensures HasPrefix(s, "https://") ==> WithHttps(s) == s
    ensures WithHttps(WithHttps(s)) == WithHttps(s)
  {
    if !HasPrefix(s, "https://") {
      Halves("https://", s);
    }
  }

  /** The address forms the pipeline is written for, as a git prefix
      `pre` and a scheme `l`: `https://`, `git+https://`, `git@` and
      `ssh://git@`. */
  predicate KnownForm(pre: string, l: string) {
    || (pre == "" && (l == "https://" || l == "ssh://git@"))
    || (pre == "git+" && l == "https://")
    || (pre == "git@" && l == "")
  }

  /** The fragment strip keeps everything before the `#`. */
  lemma StripOfParts(pre: string, l: string, v: string, g: string, frag: string)
    requires '#' !in pre && '#' !in l && '#' !in v && '#' !in g
    requires frag == "" || (frag[0] == '#' && '\n' !in frag)
    ensures StripFragments(pre + (l + (v + (g + frag)))) == pre + (l + (v + g))
  {
    if frag == "" {
      assert StripFragments(frag) == "";
    } else {
      StripFragmentsTail(frag);
    }
    StripFragmentsKeep(g, frag);
    assert g + "" == g;
    StripFragmentsKeep(v, g + frag);
    StripFragmentsKeep(l, v + (g + frag));
    StripFragmentsKeep(pre, l + (v + (g + frag)));
  }

  /** The git-prefix stage drops `git+` or `git@` from the front of a line
      whose rest does not start with `g`. */
  lemma GitStage(pre: string, rest: string)
    requires pre == "" || pre == "git+" || pre == "git@"
    requires '\n' !in rest
    requires pre == "" ==> |rest| > 0 && rest[0] != 'g'
    ensures DropGitPrefix(pre + rest) == rest
  {
    FirstLineWhole(rest);
    var x := pre + rest;
    Halves(pre, rest);
    if pre == "git@" {
      DifferAt(x, "git+", 3);
    } else if pre == "" {
      assert x == rest;
      DifferAt(x, "git+", 0);
      DifferAt(x, "git@", 0);
    }
  }

  /** One `.git` is trimmed when present; without it nothing is. */
  lemma SuffixStage(l: string, v: string, g: string)
    requires g == "" || g == ".git"
    requires |v| >= 4 && !HasSuffix(v, ".git")
    ensures TrimSuffix(l + (v + g), ".git") == l + v
  {
    Regroup(l, v, g);
    var x := l + v;
    Halves(x, g);
    if g == "" {
      assert x + g == x;
      assert x[|x| - 4..] == v[|v| - 4..];
    }
  }

  /** The scheme stage drops `ssh://git@` and keeps `https://`. */
  lemma SchemeStage(l: string, host: string, com: string, path: string)
    requires l == "https://" || l == "" || l == "ssh://git@"
    requires PlainParts(host, path) && (com == ".com/" || com == ".com:")
    ensures DropScheme(l + HostPath(host, com, path))
      == (if l == "https://" then l else "") + HostPath(host, com, path)
  {
    var v := HostPath(host, com, path);
    HostPathFacts(host, com, path);
    var x := l + v;
    Halves(l, v);
    if l == "https://" {
      DifferAt(x, "ssh://git@", 0);
      DifferAt(x, "git://", 0);
      assert '\n' !in x;
      FirstLineWhole(x);
    } else if l == "ssh://git@" {
      FirstLineWhole(v);
    } else {
      assert x == v;
      FirstLineWhole(v);
    }
  }

  /** The `https://` scheme ends up in front exactly once. */
  lemma HttpsStage(l: string, host: string, path: string)
    requires l == "https://" || l == ""
    requires PlainParts(host, path)
    ensures WithHttps(l + HostPath(host, ".com/", path)) == "https://" + HostPath(host, ".com/", path)
  {
    HostPathFacts(host, ".com/", path);
    Halves(l, HostPath(host, ".com/", path));
    if l == "" {
      assert l + HostPath(host, ".com/", path) == HostPath(host, ".com/", path);
    }
  }

  /** `Canonicalise` is the composition of its stages. */
  lemma CanonicaliseStages(s: string, a: string, b: string, c: string, d: string)
    requires a == DropGitPrefix(s) && b == TrimSuffix(a, ".git")
    requires c == DropScheme(b) && d == ReplaceAll(c, ".com:", ".com/")
    ensures Canonicalise(s) == WithHttps(d)
  {
  }

  /** Every address form the tests use comes out as
      `https://<host>.com/<path>`: with or without `git+`, as `git@host:`,
      as `ssh://git@`, with or without `.git`, with or without a fragment. */
  lemma GetRepositoryUrlOfParts(url: string, pre: string, l: string, host: string, com: string, path: string, g: string, frag: string)
    requires KnownForm(pre, l) && PlainParts(host, path) && (com == ".com/" || com == ".com:")
    requires g == "" || g == ".git"
    requires frag == "" || (frag[0] == '#' && '\n' !in frag)
    requires url == pre + (l + (HostPath(host, com, path) + (g + frag)))
    ensures GetRepositoryUrl(url) == "https://" + HostPath(host, ".com/", path)
  {
    var v := HostPath(host, com, path);
    HostPathFacts(host, com, path);
    var s0 := StripFragments(url);
    var a := DropGitPrefix(s0);
    EarlierStages(pre, l, host, com, path, g, frag);
    SuffixStage(l, v, g);
    var b := TrimSuffix(a, ".git");
    var c := DropScheme(b);
    var d := ReplaceAll(c, ".com:", ".com/");
    LaterStages(l, host, com, path);
    CanonicaliseStages(s0, a, b, c, d);
  }

  /** The fragment strip and the git-prefix stage leave the scheme, the
      host-and-path core and the `.git` ending. */
  lemma EarlierStages(pre: string, l: string, host: string, com: string, path: string, g: string, frag: string)
    requires KnownForm(pre, l) && PlainParts(host, path) && (com == ".com/" || com == ".com:")
    requires g == "" || g == ".git"
    requires frag == "" || (frag[0] == '#' && '\n' !in frag)
    ensures DropGitPrefix(StripFragments(pre + (l + (HostPath(host, com, path) + (g + frag)))))
      == l + (HostPath(host, com, path) + g)
  {
    var v := HostPath(host, com, path);
    HostPathChars(host, com, path);
    StripOfParts(pre, l, v, g, frag);
    var rest := l + (v + g);
    assert '\n' !in rest;
    if pre == "" {
      Halves(l, v + g);
      assert rest[0] == l[0];
    }
    GitStage(pre, rest);
  }

  /** The stages after the `.git` trim turn each known scheme and either
      separator into `https://<host>.com/<path>`. */
  lemma LaterStages(l: string, host: string, com: string, path: string)
    requires l == "https://" || l == "" || l == "ssh://git@"
    requires PlainParts(host, path) && (com == ".com/" || com == ".com:")
    ensures WithHttps(ReplaceAll(DropScheme(l + HostPath(host, com, path)), ".com:", ".com/"))
      == "https://" + HostPath(host, ".com/", path)
  {
    SchemeStage(l, host, com, path);
    if l == "https://" {
      ReplaceHostPath("https://", host, com, path);
      HttpsStage("https://", host, path);
    } else {
      ReplaceHostPath("", host, com, path);
      HttpsStage("", host, path);
    }
  }

  /** The address forms of the tests, written as the tests spell them:
      the lead, the host, `.com:` or `.com/`, the path, an optional `.git`
      and an optional fragment. */
  lemma UrlOfForm(url: string, pre: string, l: string, host: string, com: string, path: string, g: string, frag: string)
    requires KnownForm(pre, l) && PlainParts(host, path) && (com == ".com/" || com == ".com:")
    requires g == "" || g == ".git"
    requires frag == "" || (frag[0] == '#' && '\n' !in frag)
    requires url == pre + l + host + com + path + g + frag
    ensures GetRepositoryUrl(url) == "https://" + host + ".com/" + path
  {
    Regroup7(pre, l, host, com, path, g, frag);
    GetRepositoryUrlOfParts(url, pre, l, host, com, path, g, frag);
    Regroup4("https://", host, ".com/", path);
  }

  /** The grouping `UrlOfForm` needs for its address. */
  lemma Regroup7(a: string, b: string, c: string, d: string, e: string, f: string, g: string)
    ensures a + b + c + d + e + f + g == a + (b + (c + (d + e) + (f + g)))
  {
  }

  /** The grouping `UrlOfForm` needs for its result. */
  lemma Regroup4(a: string, b: string, c: string, d: string)
    ensures a + (b + (c + d)) == a + b + c + d
  {
  }

  /** An empty address becomes the bare scheme: both patterns match the
      empty string, so the early `""` returns are never taken. */
  lemma EmptyUrl()
    ensures GetRepositoryUrl("") == "https://"
  {
    assert FirstLine("") == "";
  }

  /** An address that is already a one-line `https://` URL without a
      fragment, a `.git` ending or a `.com:` comes back unchanged. */
  lemma CanonicalUnchanged(url: string)
    requires HasPrefix(url, "https://")
    requires '#' !in url && '\n' !in url
    requires !HasSuffix(url, ".git") && !Contains(url, ".com:")
    ensures GetRepositoryUrl(url) == url
  {
    StripFragmentsKeep(url, "");
    assert url + "" == url;
    assert url[0] == 'h';
    FirstLineWhole(url);
    DifferAt(url, "git+", 0);
    DifferAt(url, "git@", 0);
    assert DropGitPrefix(url) == url;
    DifferAt(url, "ssh://git@", 0);
    DifferAt(url, "git://", 0);
    assert DropScheme(url) == url;
    ReplaceAllAbsent(url, ".com:", ".com/");
    CanonicaliseStages(url, url, url, url, url);
  }

  /** A leading `git+` or `git@` is dropped, once: the rest, when it does
      not itself start with one, gives the same address. */
  lemma GitPrefixDropped(p: string, rest: string)
    requires p == "git+" || p == "git@"
    requires '#' !in rest
    requires !HasPrefix(rest, "git+") && !HasPrefix(rest, "git@")
    ensures GetRepositoryUrl(p + rest) == GetRepositoryUrl(rest)
  {
    StripFragmentsKeep(rest, "");
    assert rest + "" == rest;
    StripFragmentsKeep(p, rest);
    var x := p + rest;
    Halves(p, rest);
    if p == "git@" {
      DifferAt(x, "git+", 3);
    }
    assert DropGitPrefix(x) == FirstLine(rest) == DropGitPrefix(rest);
  }

  /** One `.git` ending is trimmed: adding it to an address without one
      changes nothing. */
  lemma GitSuffixTrimmed(url: string)
    requires '#' !in url && '\n' !in url
    requires !HasSuffix(url, ".git")
    ensures GetRepositoryUrl(url + ".git") == GetRepositoryUrl(url)
  {
    var x := url + ".git";
    StripFragmentsKeep(url, "");
    StripFragmentsKeep(x, "");
    assert url + "" == url && x + "" == x;
    assert '#' !in x;
    GitPrefixKeepsSuffix(url);
    var t := DropGitPrefix(url);
    Halves(t, ".git");
    assert TrimSuffix(t + ".git", ".git") == t;
  }

  /** Dropping the git prefix keeps a `.git` ending added after it, and
      adds none that was not there. */
  lemma GitPrefixKeepsSuffix(url: string)
    requires '\n' !in url && !HasSuffix(url, ".git")
    ensures DropGitPrefix(url + ".git") == DropGitPrefix(url) + ".git"
    ensures !HasSuffix(DropGitPrefix(url), ".git")
  {
    var x := url + ".git";
    assert '\n' !in x;
    var t := if HasPrefix(url, "git+") then url[4..] else TrimPrefix(url, "git@");
    SamePrefixStatus(url, "git+");
    SamePrefixStatus(url, "git@");
    var t' := if HasPrefix(x, "git+") then x[4..] else TrimPrefix(x, "git@");
    assert t' == t + ".git";
    SliceKeepsOut(url, |url| - |t|, |url|, '\n');
    assert t == url[|url| - |t|..|url|];
    FirstLineWhole(t);
    FirstLineWhole(t + ".git");
    assert !HasSuffix(t, ".git") by {
      if |t| >= 4 {
        assert t[|t| - 4..] == url[|url| - 4..];
      }
    }
  }

  /** Adding `.git` does not change whether an address starts with a
      four-character git prefix. */
  lemma SamePrefixStatus(url: string, p: string)
    requires p == "git+" || p == "git@"
    ensures HasPrefix(url + ".git", p) <==> HasPrefix(url, p)
    ensures HasPrefix(url, p) ==> (url + ".git")[4..] == url[4..] + ".git"
  {
    var x := url + ".git";
    if |url| >= 4 {
      assert x[..4] == url[..4];
    } else {
      assert x[|url|] == '.';
      DifferAt(x, p, |url|);
    }
  }

  /** `URLMetadata`: the owner and the project of a repository address. */
  datatype UrlMetadata = UrlMetadata(username: string, repositoryName: string)

  /** Text with a `/` splits into at least two fragments. */
  lemma SplitAtSlash(url: string)
    requires '/' in url
    ensures |Split(url, '/')| >= 2
  {
    var i :| 0 <= i < |url| && url[i] == '/';
    assert url == url[..i] + ['/'] + url[i + 1..];
    SplitAppend(url[..i], url[i + 1..], '/');
  }

  /** `GetRepositoryUrlMetadata`: the last two `/`-separated fragments. With
      no `/` there is only one fragment and the index before it is out of
      range, so a `/` is required. */
  function GetRepositoryUrlMetadata(url: string): (r: UrlMetadata)
    requires '/' in url
    ensures '/' !in r.username && '/' !in r.repositoryName
  {
    SplitAtSlash(url);
    var fragments := Split(url, '/');
    UrlMetadata(fragments[|fragments| - 2], fragments[|fragments| - 1])
  }

  /** The last two parts of a join sit at its end, separated. */
  lemma {:induction false} JoinLastTwo(parts: seq<string>, sep: char)
    requires |parts| >= 2
    ensures var u, n := parts[|parts| - 2], parts[|parts| - 1];
      && (|parts| == 2 ==> Join(parts, sep) == u + [sep] + n)
      && (|parts| > 2 ==> HasSuffix(Join(parts, sep), [sep] + u + [sep] + n))
    decreases |parts|
  {
    var u, n := parts[|parts| - 2], parts[|parts| - 1];
    if |parts| == 2 {
      assert parts[1..] == [n];
    } else {
      var tail := parts[1..];
      JoinLastTwo(tail, sep);
      assert tail[|tail| - 2] == u && tail[|tail| - 1] == n;
      var j := Join(tail, sep);
      var w := [sep] + u + [sep] + n;
      assert Join(parts, sep) == parts[0] + [sep] + j;
      if |tail| == 2 {
        assert Join(parts, sep) == parts[0] + w;
      } else {
        assert j[|j| - |w|..] == w;
        assert (parts[0] + [sep] + j)[|parts[0] + [sep] + j| - |w|..] == j[|j| - |w|..];
      }
    }
  }

  /** The two fragments returned are what ends the address: the whole of
      it, or the text after a `/`. */
  lemma MetadataAtEnd(url: string)
    requires '/' in url
    ensures var r := GetRepositoryUrlMetadata(url);
      url == r.username + "/" + r.repositoryName
      || HasSuffix(url, "/" + r.username + "/" + r.repositoryName)
  {
    SplitAtSlash(url);
    JoinLastTwo(Split(url, '/'), '/');
  }

  /** An owner and a project name without `/` are read back from the end of
      any address that ends with them. */
  lemma MetadataOfParts(url: string, x: string, u: string, n: string)
    requires '/' !in u && '/' !in n
    requires url == x + "/" + u + "/" + n
    ensures '/' in url
    ensures GetRepositoryUrlMetadata(url) == UrlMetadata(u, n)
  {
    assert url == (x + "/" + u) + ['/'] + n;
    assert url[|url| - |n| - 1] == '/';
    SplitAppend(x + "/" + u, n, '/');
    SplitAppend(x, u, '/');
    SplitNoSep(u, '/');
    SplitNoSep(n, '/');
  }
}
