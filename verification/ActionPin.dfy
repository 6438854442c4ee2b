/** The `owner/repo[/path]@ref` pattern of a workflow step and its pinned commit. */
module ActionPin {
  import opened Text

  /** First slash or at sign, or the length. */
  function FindEither(s: string): (n: nat)
    ensures n <= |s| && forall k :: 0 <= k < n ==> s[k] != '/' && s[k] != '@'
    ensures n < |s| ==> s[n] == '/' || s[n] == '@'
  {
    if s == "" || s[0] == '/' || s[0] == '@' then 0
    else
      assert forall i :: 0 < i < |s| ==> s[i] == s[1..][i - 1];
      1 + FindEither(s[1..])
  }

  /** `.+$`: no line feed, except that one may end the text. */
  function RefOf(s: string): Option<string> {
    var r := if s != "" && s[|s| - 1] == '\n' then s[..|s| - 1] else s;
    if r == "" || Find(r, '\n') < |r| then None else Some(r)
  }

  function AfterRepo(s: string): Option<string> {
    if s == "" then None
    else if s[0] == '@' then RefOf(s[1..])
    else
      var path := s[1..];
      var k := Find(path, '@');
      if 0 < k < |path| then RefOf(path[k + 1..]) else None
  }

  function AfterOwner(s: string): Option<string> {
    var j := FindEither(s);
    if j == 0 || j == |s| then None else AfterRepo(s[j..])
  }

  /** The `ref` group of the action pattern, or None when it does not match. */
  function MatchRef(uses: string): Option<string> {
    var i := Find(uses, '/');
    if i == 0 || i == |uses| then None else AfterOwner(uses[i + 1..])
  }

  predicate Free(s: string, c: char) {
    forall k :: 0 <= k < |s| ==> s[k] != c
  }

  /** The pattern read as a grammar; `path` is empty or a slash and at least one character. */
  predicate ActionShape(uses: string, owner: string, repo: string, path: string, ref: string, end: string) {
    && owner != "" && Free(owner, '/')
    && repo != "" && Free(repo, '/') && Free(repo, '@')
    && (path == "" || (|path| > 1 && path[0] == '/' && Free(path[1..], '@')))
    && ref != "" && Free(ref, '\n') && (end == "" || end == "\n")
    && uses == owner + "/" + (repo + (path + ("@" + (ref + end))))
  }

  lemma FindAt(a: string, c: char, b: string)
    requires Free(a, c)
    ensures var s := a + [c] + b;
            Find(s, c) == |a| && s[..|a|] == a && s[|a| + 1..] == b
  {
    var s := a + [c] + b;
    assert s[|a|] == c;
    assert forall k :: 0 <= k < |a| ==> s[k] == a[k];
    hide Find;
  }

  lemma FindNone(s: string, c: char)
    ensures Find(s, c) == |s| <==> Free(s, c)
  {
    hide Find;
  }

  lemma RefOfIff(s: string, ref: string)
    ensures RefOf(s) == Some(ref) <==>
            ref != "" && Free(ref, '\n') && (s == ref || s == ref + "\n")
  {
    FindNone(ref, '\n');
    if s != "" && s[|s| - 1] == '\n' {
      var r := s[..|s| - 1];
      FindNone(r, '\n');
      assert s == r + "\n";
      hide Find;
      if s == ref + "\n" {
        assert r == ref;
      }
    } else {
      FindNone(s, '\n');
      hide Find;
      assert s != ref + "\n" by {
        assert (ref + "\n")[|ref|] == '\n';
      }
    }
  }

  lemma FindEitherAt(a: string, b: string)
    requires Free(a, '/') && Free(a, '@') && b != "" && (b[0] == '/' || b[0] == '@')
    ensures FindEither(a + b) == |a| && (a + b)[|a|..] == b
  {
    var s := a + b;
    assert s[|a|] == b[0];
    assert forall k :: 0 <= k < |a| ==> s[k] == a[k];
    hide FindEither;
  }

  lemma AfterRepoOf(path: string, ref: string, end: string)
    requires path == "" || (|path| > 1 && path[0] == '/' && Free(path[1..], '@'))
    requires ref != "" && Free(ref, '\n') && (end == "" || end == "\n")
    ensures AfterRepo(path + ("@" + (ref + end))) == Some(ref)
  {
    var tail := ref + end;
    assert tail == ref || tail == ref + "\n";
    RefOfIff(tail, ref);
    hide RefOf, Find, Free;
    if path == "" {
      assert path + ("@" + tail) == "@" + tail;
      assert ("@" + tail)[1..] == tail;
    } else {
      AfterPath(path, tail);
    }
  }

  lemma AfterPath(path: string, tail: string)
    requires |path| > 1 && path[0] == '/' && Free(path[1..], '@')
    ensures AfterRepo(path + ("@" + tail)) == RefOf(tail)
  {
    var s := path + ("@" + tail);
    FindAt(path[1..], '@', tail);
    hide RefOf, Find, Free;
    assert s[1..] == path[1..] + ['@'] + tail;
  }

  lemma MatchRefOf(uses: string, owner: string, repo: string, path: string, ref: string, end: string)
    requires ActionShape(uses, owner, repo, path, ref, end)
    ensures MatchRef(uses) == Some(ref)
  {
    var tail := path + ("@" + (ref + end));
    AfterRepoOf(path, ref, end);
    FindAt(owner, '/', repo + tail);
    assert tail[0] == '/' || tail[0] == '@';
    FindEitherAt(repo, tail);
    hide AfterRepo, Find, FindEither, Free;
    assert uses == owner + ['/'] + (repo + tail);
  }

  lemma AfterRepoParts(s: string) returns (path: string, ref: string, end: string)
    requires AfterRepo(s).Some? && (s[0] == '/' || s[0] == '@')
    ensures path == "" || (|path| > 1 && path[0] == '/' && Free(path[1..], '@'))
    ensures ref != "" && Free(ref, '\n') && (end == "" || end == "\n")
    ensures s == path + ("@" + (ref + end)) && AfterRepo(s) == Some(ref)
  {
    hide RefOf;
    ref := AfterRepo(s).value;
    var tail: string;
    if s[0] == '@' {
      path, tail := "", s[1..];
      assert s == path + ("@" + tail);
    } else {
      path, tail := PathParts(s);
    }
    hide AfterRepo, Free, Find;
    RefOfIff(tail, ref);
    end := if tail == ref then "" else "\n";
    assert tail == ref + end;
  }

  lemma PathParts(s: string) returns (path: string, tail: string)
    requires AfterRepo(s).Some? && s[0] == '/'
    ensures |path| > 1 && path[0] == '/' && Free(path[1..], '@')
    ensures s == path + ("@" + tail) && AfterRepo(s) == RefOf(tail)
  {
    hide RefOf;
    var k := Find(s[1..], '@');
    path, tail := s[..k + 1], s[k + 2..];
    assert s[1..][k + 1..] == tail;
    assert path[1..] == s[1..][..k];
    assert s[k + 1] == s[1..][k] == '@';
    assert s == path + ("@" + tail);
  }

  lemma AfterOwnerParts(s: string) returns (repo: string, rest: string)
    requires AfterOwner(s).Some?
    ensures repo != "" && Free(repo, '/') && Free(repo, '@')
    ensures rest != "" && (rest[0] == '/' || rest[0] == '@')
    ensures s == repo + rest && AfterOwner(s) == AfterRepo(rest)
  {
    var j := FindEither(s);
    repo, rest := s[..j], s[j..];
  }

  lemma OwnerParts(uses: string) returns (owner: string, rest: string)
    requires MatchRef(uses).Some?
    ensures owner != "" && Free(owner, '/')
    ensures uses == owner + "/" + rest && MatchRef(uses) == AfterOwner(rest)
  {
    hide AfterOwner, Find;
    var i := Find(uses, '/');
    owner, rest := uses[..i], uses[i + 1..];
    assert forall k :: 0 <= k < i ==> owner[k] == uses[k];
    assert uses == owner + [uses[i]] + rest;
  }

  lemma MatchRefParts(uses: string)
    returns (owner: string, repo: string, path: string, ref: string, end: string)
    requires MatchRef(uses).Some?
    ensures ActionShape(uses, owner, repo, path, ref, end) && MatchRef(uses) == Some(ref)
  {
    hide MatchRef, AfterOwner, AfterRepo, Free;
    var tail1, tail2;
    owner, tail1 := OwnerParts(uses);
    repo, tail2 := AfterOwnerParts(tail1);
    path, ref, end := AfterRepoParts(tail2);
  }

  ghost predicate References(uses: string, ref: string) {
    exists owner, repo, path, end :: ActionShape(uses, owner, repo, path, ref, end)
  }

  /** The recogniser matches exactly the strings of the grammar, and the reference is unique. */
  lemma MatchRefIff(uses: string, ref: string)
    ensures MatchRef(uses) == Some(ref) <==> References(uses, ref)
  {
    if MatchRef(uses) == Some(ref) {
      var owner, repo, path, r, end := MatchRefParts(uses);
      assert r == ref;
    }
    if References(uses, ref) {
      var owner, repo, path, end :| ActionShape(uses, owner, repo, path, ref, end);
      MatchRefOf(uses, owner, repo, path, ref, end);
    }
  }

  /** Forty lower-case hexadecimal digits. */
  predicate FullSha(ref: string) {
    |ref| == 40 && forall i :: 0 <= i < 40 ==> IsDigit(ref[i]) || 'a' <= ref[i] <= 'f'
  }

  lemma FullShaIff(ref: string)
    ensures FullSha(ref) <==> |ref| == 40 && forall i :: 0 <= i < 40 ==> ref[i] in "0123456789abcdef"
  {
    forall c: char
      ensures c in "0123456789abcdef" <==> IsDigit(c) || 'a' <= c <= 'f'
    {
      HexLower(c);
    }
  }

  lemma HexLower(c: char)
    ensures c in "0123456789abcdef" <==> IsDigit(c) || 'a' <= c <= 'f'
  {
    var table := "0123456789abcdef";
    if IsDigit(c) {
      assert table[c as int - '0' as int] == c;
    } else if 'a' <= c <= 'f' {
      assert table[c as int - 'a' as int + 10] == c;
    }
  }
}
