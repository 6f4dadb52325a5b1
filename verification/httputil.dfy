/**
  The route-pattern parser of the gateway's `httputil` package:
  `[METHOD] [HOST]/[PATH]` split into its three parts, with the method checked
  against the HTTP token grammar and the path checked to be canonical
  whenever a method other than CONNECT is given.
  The wildcard rules in the parser's doc comment (identifier names, distinct
  names, `{$}` and `{name...}` last) are not checked by the parser, so they
  are not checked here either.
*/
module HttpUtil {
  import opened Base
  import opened GoStrings
  import GoPath

  // ---- method tokens ----

  /** The characters that are not allowed in a token besides controls (section 3.2.6 of RFC 7230). */
  const Separators := "()<>@,;:\\\"/[]?={} \t"

  /** `tchar` of section 3.2.6 of RFC 7230, the table behind `httpguts.IsTokenRune`. */
  predicate IsTokenChar(c: char)
  {
    || ('0' <= c <= '9')
    || ('A' <= c <= 'Z')
    || ('a' <= c <= 'z')
    || c in "!#$%&'*+-.^_`|~"
  }

  /** The first index of a non-token character, or -1 (`strings.IndexFunc(method, isNotToken)`). */
  function IndexNotToken(m: string): (r: int)
    ensures -1 <= r < |m|
    ensures r == -1 <==> forall k :: 0 <= k < |m| ==> IsTokenChar(m[k])
    ensures r >= 0 ==> !IsTokenChar(m[r])
    decreases |m|
  {
    if m == [] then -1
    else if !IsTokenChar(m[0]) then 0
    else
      var r := IndexNotToken(m[1..]);
      if r < 0 then -1 else r + 1
  }

  /** `validMethod`: a method is a non-empty token. */
  function ValidMethod(m: string): (r: bool)
    ensures r <==> |m| > 0 && forall k :: 0 <= k < |m| ==> IsTokenChar(m[k])
  {
    |m| > 0 && IndexNotToken(m) == -1
  }

  // ---- path canonicalisation ----

  /** A non-empty path with a leading '/' added when it has none. */
  function Rooted(p: string): (q: string)
    requires p != ""
    ensures q != "" && q[0] == '/' && q[|q| - 1] == p[|p| - 1]
  {
    if p[0] != '/' then "/" + p else p
  }

  /** `cleanPath`: the canonical form of a request path, rooted, with "." and ".." resolved and a trailing '/' kept. */
  function CleanPath(p: string): (r: string)
    ensures |r| > 0 && r[0] == '/'
  {
    if p == "" then "/"
    else
      var q := Rooted(p);
      var np := GoPath.Clean(q);
      if q[|q| - 1] == '/' && np != "/" then
        if |q| == |np| + 1 && HasPrefix(q, np) then q else np + "/"
      else np
  }

  // ---- pattern parsing ----

  /** The blanks that separate a method from the rest of a pattern. */
  const Blanks := " \t"

  predicate NoBlank(s: string)
  {
    forall k :: 0 <= k < |s| ==> s[k] !in Blanks
  }

  /** `s` is `m`, one blank, a run of further blanks, then `rest` (which does not start with a blank). */
  predicate Separated(s: string, m: string, rest: string)
  {
    && |m| < |s|
    && s[..|m|] == m
    && NoBlank(m)
    && s[|m|] in Blanks
    && IsTrimLeft(s[|m| + 1..], Blanks, rest)
  }

  /** `s` is `rest` with no method, or a method, blanks, then `rest`. */
  predicate Spells(s: string, m: string, rest: string)
  {
    (NoBlank(s) && m == "" && s == rest) || Separated(s, m, rest)
  }

  datatype MethodSplit = MethodSplit(found: bool, verb: string, rest: string)

  /** The method is everything before the first blank; without a blank there is no method. */
  function SplitMethod(s: string): (r: MethodSplit)
    ensures !r.found ==> r.verb == "" && r.rest == s
  {
    var i := IndexAny(s, Blanks);
    if i >= 0 then MethodSplit(true, s[..i], TrimLeft(s[i + 1..], Blanks))
    else MethodSplit(false, "", s)
  }

  /** The first stage splits exactly along the grammar: no method without a blank, otherwise the method, blanks and the rest. */
  lemma SplitMethodSpec(s: string)
    ensures var r := SplitMethod(s);
      && (!r.found <==> NoBlank(s))
      && (r.found ==> Separated(s, r.verb, r.rest))
  {
    var i := IndexAny(s, Blanks);
    if i >= 0 {
      SeparatedAt(s, i);
      assert !NoBlank(s) by {
        assert s[i] in Blanks;
      }
    }
  }

  /** Splitting at the first blank separates the method from the rest. */
  lemma SeparatedAt(s: string, i: nat)
    requires i < |s| && s[i] in Blanks
    requires forall k :: 0 <= k < i ==> s[k] !in Blanks
    ensures Separated(s, s[..i], TrimLeft(s[i + 1..], Blanks))
  {
    var m := s[..i];
    assert NoBlank(m) by {
      forall k | 0 <= k < |m|
        ensures m[k] !in Blanks
      {
        assert m[k] == s[k];
      }
    }
    TrimLeftSpec(s[i + 1..], Blanks);
  }

  /** A parsed pattern; `verb` is the pattern's METHOD part, empty when it has none. */
  datatype Pattern = Pattern(verb: string, host: string, path: string)

  /** Why a pattern was rejected; all but an empty pattern carry the byte offset the parser had reached. */
  datatype Reason = InvalidMethod(verb: string) | MissingSlash | HostBrace | UncleanPath
  datatype ParseError = EmptyPattern | At(offset: nat, reason: Reason)

  /** What every accepted pattern looks like. */
  predicate WellShaped(pat: Pattern)
  {
    && |pat.path| > 0 && pat.path[0] == '/'
    && '/' !in pat.host
    && '{' !in pat.host
    && (pat.verb == "" || ValidMethod(pat.verb))
    && (pat.verb == "" || pat.verb == "CONNECT" || CleanPath(pat.path) == pat.path)
  }

  /** The grammar of patterns: `s` is `pat` written out, with or without a method. */
  predicate Accepts(s: string, pat: Pattern)
  {
    && WellShaped(pat)
    && Spells(s, pat.verb, pat.host + pat.path)
  }

  /** `ParsePattern`: split `[METHOD] [HOST]/[PATH]`, or say where and why the pattern is malformed. */
  function ParsePattern(s: string): (r: Result<Pattern, ParseError>)
    ensures r == Failure(EmptyPattern) <==> s == ""
  {
    if |s| == 0 then Failure(EmptyPattern) else ParseSplit(SplitMethod(s))
  }

  /** The rest of `ParsePattern` once the method has been split off: reject an invalid method at offset 0, then parse host and path. */
  function ParseSplit(sp: MethodSplit): (r: Result<Pattern, ParseError>)
    ensures r.Failure? ==> r.error.At?
    ensures (r.Failure? && r.error.reason.InvalidMethod?) <==> (sp.verb != "" && !ValidMethod(sp.verb))
    ensures r.Success? ==> r.value.verb == sp.verb
  {
    if sp.verb != "" && !ValidMethod(sp.verb) then Failure(At(0, InvalidMethod(sp.verb)))
    else ParseHostPath(sp.verb, if sp.found then |sp.verb| + 1 else 0, sp.rest)
  }

  /**
    The second stage of `ParsePattern`, once the method is known to be valid:
    the host is what precedes the first '/' of `rest`, and `off` is the offset
    the parser has reached (the method and one blank).
  */
  function ParseHostPath(verb: string, off: nat, rest: string): (r: Result<Pattern, ParseError>)
    requires verb == "" || ValidMethod(verb)
    ensures r.Success? ==> r.value.verb == verb
    ensures r.Failure? ==> r.error.At? && off <= r.error.offset && !r.error.reason.InvalidMethod?
  {
    var i := IndexByte(rest, '/');
    if i < 0 then Failure(At(off, MissingSlash))
    else
      var host := rest[..i];
      var path := rest[i..];
      var j := IndexByte(host, '{');
      if j >= 0 then Failure(At(off + j, HostBrace))
      else if verb != "" && verb != "CONNECT" && path != CleanPath(path) then Failure(At(off, UncleanPath))
      else Success(Pattern(verb, host, path))
  }

  /** What the second stage accepts is well shaped and splits `rest` into host and path. */
  lemma HostPathSound(verb: string, off: nat, rest: string)
    requires verb == "" || ValidMethod(verb)
    requires ParseHostPath(verb, off, rest).Success?
    ensures var pat := ParseHostPath(verb, off, rest).value;
      WellShaped(pat) && pat.host + pat.path == rest
  {
    var i := IndexByte(rest, '/');
    SplitAt(rest, i);
  }

  // ---- properties of CleanPath ----

  /** The names of the canonical path of `p`: its rooted form, split and resolved. */
  function CanonicalNames(p: string): seq<string>
  {
    if p == "" then [] else GoPath.Resolve(true, [], GoPath.Split(Rooted(p)[1..]))
  }

  /** The fast path of `cleanPath`, which hands back its argument, gives the same string as appending '/' to the cleaned path. */
  lemma CleanPathSlash(p: string)
    requires p != ""
    ensures var np := GoPath.Clean(Rooted(p));
      CleanPath(p) == (if p[|p| - 1] == '/' && np != "/" then np + "/" else np)
  {
    var q, np := Rooted(p), GoPath.Clean(Rooted(p));
    if q[|q| - 1] == '/' && np != "/" && |q| == |np| + 1 && HasPrefix(q, np) {
      SplitAt(q, |np|);
      assert q[|np|..] == [q[|q| - 1]];
    }
  }

  /**
    What `cleanPath` returns: "/" followed by the resolved names, plus a '/'
    exactly when `p` ends in '/' and there is at least one name. The fast
    path of `cleanPath` returns the same string as the general one.
  */
  lemma CleanPathShape(p: string)
    ensures var st := CanonicalNames(p);
      && GoPath.AllNames(st)
      && CleanPath(p) == (if p != "" && p[|p| - 1] == '/' && st != []
                          then "/" + GoPath.JoinSegs(st) + "/"
                          else "/" + GoPath.JoinSegs(st))
  {
    var st := CanonicalNames(p);
    if p == "" {
      assert GoPath.AllNames(st);
    } else {
      GoPath.CleanRootedForm(Rooted(p));
      CleanPathSlash(p);
      assert GoPath.Clean(Rooted(p)) == "/" + GoPath.JoinSegs(st);
      if st != [] {
        GoPath.JoinNamesLast(st);
      }
    }
  }

  /** The canonical names of a canonical path are the names it was built from. */
  lemma CanonicalNamesOfCanonical(st: seq<string>, slash: bool)
    requires GoPath.AllNames(st)
    requires slash ==> st != []
    ensures CanonicalNames("/" + GoPath.JoinSegs(st) + (if slash then "/" else "")) == st
  {
    var r := "/" + GoPath.JoinSegs(st) + (if slash then "/" else "");
    if slash {
      assert r[1..] == GoPath.JoinSegs(st) + "/";
      GoPath.ResolveSplitNamesSlash(st);
    } else {
      assert r[1..] == GoPath.JoinSegs(st);
      GoPath.ResolveSplitNames(st);
    }
  }

  /** A canonical path is its own canonical form. */
  lemma CleanPathCanonical(st: seq<string>, slash: bool)
    requires GoPath.AllNames(st)
    requires slash ==> st != []
    ensures var r := "/" + GoPath.JoinSegs(st) + (if slash then "/" else ""); CleanPath(r) == r
  {
    var r := "/" + GoPath.JoinSegs(st) + (if slash then "/" else "");
    CanonicalNamesOfCanonical(st, slash);
    CleanPathShape(r);
    if !slash {
      assert r == "/" + GoPath.JoinSegs(st);
      if st != [] {
        GoPath.JoinNamesLast(st);
        assert r[|r| - 1] != '/';
      }
    }
  }

  /** `cleanPath` returns "the canonical path": applying it again changes nothing. */
  lemma CleanPathIdempotent(p: string)
    ensures CleanPath(CleanPath(p)) == CleanPath(p)
  {
    var st := CanonicalNames(p);
    var slash := p != "" && p[|p| - 1] == '/' && st != [];
    CleanPathShape(p);
    assert CleanPath(p) == "/" + GoPath.JoinSegs(st) + (if slash then "/" else "");
    CleanPathCanonical(st, slash);
  }

  /** The trailing '/' rule: the canonical path ends in '/' (and is not "/") exactly when `p` ends in '/' and names something below the root. */
  lemma CleanPathTrailingSlash(p: string)
    ensures var r := CleanPath(p);
      (r != "/" && r[|r| - 1] == '/') <==> (p != "" && p[|p| - 1] == '/' && CanonicalNames(p) != [])
  {
    var st := CanonicalNames(p);
    CleanPathShape(p);
    if st != [] {
      GoPath.JoinNamesLast(st);
    }
  }

  /** The canonical path names the same location as `p`: `path.Clean` cannot tell them apart. */
  lemma CleanPathSameLocation(p: string)
    ensures GoPath.Clean(CleanPath(p)) == "/" + GoPath.JoinSegs(CanonicalNames(p))
  {
    var st := CanonicalNames(p);
    CleanPathShape(p);
    if p != "" && p[|p| - 1] == '/' && st != [] {
      GoPath.CleanRootedNamesSlash(st);
    } else {
      GoPath.CleanRootedNames(st);
    }
  }

  // ---- properties of ParsePattern ----

  /** Blanks are not token characters, so a valid method contains none. */
  lemma ValidMethodNoBlank(m: string)
    requires ValidMethod(m)
    ensures NoBlank(m)
  {
  }

  /** The first stage recovers the method and the rest from either form of the grammar. */
  lemma SplitMethodOf(s: string, m: string, rest: string)
    requires Spells(s, m, rest)
    ensures SplitMethod(s).verb == m && SplitMethod(s).rest == rest
    ensures (if SplitMethod(s).found then |m| + 1 else 0) == MethodEnd(s, m)
  {
    if NoBlank(s) && m == "" && s == rest {
      SplitMethodNoBlank(s);
    } else {
      SplitMethodSeparated(s, m, rest);
      assert !NoBlank(s) by {
        assert s[|m|] in Blanks;
      }
    }
  }

  /** Without a blank there is no method. */
  lemma SplitMethodNoBlank(s: string)
    requires NoBlank(s)
    ensures SplitMethod(s) == MethodSplit(false, "", s)
  {
  }

  /** With a blank, the method and the rest are the ones the string is made of. */
  lemma SplitMethodSeparated(s: string, m: string, rest: string)
    requires Separated(s, m, rest)
    ensures SplitMethod(s) == MethodSplit(true, m, rest)
  {
    assert forall k :: 0 <= k < |m| ==> s[k] !in Blanks by {
      forall k | 0 <= k < |m|
        ensures s[k] !in Blanks
      {
        assert s[k] == s[..|m|][k];
      }
    }
    FirstIndexAnyOf(s, Blanks, |m|);
    var t := s[|m| + 1..];
    TrimLeftSpec(t, Blanks);
    TrimLeftUnique(t, Blanks, TrimLeft(t, Blanks), rest);
  }

  /** The host is everything before the first '/'. */
  lemma HostSplitOf(h: string, p: string)
    requires '/' !in h && |p| > 0 && p[0] == '/'
    ensures var hp := h + p; IndexByte(hp, '/') == |h| && hp[..|h|] == h && hp[|h|..] == p
  {
    var hp := h + p;
    assert hp[|h|] == '/';
    assert hp[..|h|] == h;
    FirstIndexOf(hp, '/', |h|);
  }

  /** Where the host starts in the parser's reckoning: past the method and one blank, or 0 without a method. */
  function MethodEnd(s: string, m: string): nat
  {
    if NoBlank(s) then 0 else |m| + 1
  }

  /** After a valid (or absent) method, parsing continues with the second stage. */
  lemma ParseStages(s: string, m: string, rest: string)
    requires Spells(s, m, rest)
    requires rest != "" && (m == "" || ValidMethod(m))
    ensures ParsePattern(s) == ParseHostPath(m, MethodEnd(s, m), rest)
  {
    assert s != "" by {
      if !(NoBlank(s) && m == "" && s == rest) {
        assert |m| < |s|;
      }
    }
    SplitMethodOf(s, m, rest);
  }

  /** Whatever the second stage answers for the rest of a pattern is the parser's answer. */
  lemma ParseVia(s: string, m: string, rest: string, r: Result<Pattern, ParseError>)
    requires Spells(s, m, rest)
    requires rest != "" && (m == "" || ValidMethod(m))
    requires ParseHostPath(m, MethodEnd(s, m), rest) == r
    ensures ParsePattern(s) == r
  {
    ParseStages(s, m, rest);
  }

  /** Every pattern the parser accepts is in the grammar and is what the string spells. */
  lemma ParseSound(s: string)
    requires ParsePattern(s).Success?
    ensures Accepts(s, ParsePattern(s).value)
  {
    var sp := SplitMethod(s);
    SplitMethodSpec(s);
    HostPathSound(sp.verb, if sp.found then |sp.verb| + 1 else 0, sp.rest);
  }

  /** Every string of the grammar is parsed into exactly the pattern it spells. */
  lemma ParseComplete(s: string, pat: Pattern)
    requires Accepts(s, pat)
    ensures ParsePattern(s) == Success(pat)
  {
    SplitMethodOf(s, pat.verb, pat.host + pat.path);
    HostSplitOf(pat.host, pat.path);
  }

  /** The single-space rendering of a pattern; without a method the blank is left out when nothing would be mistaken for one. */
  function Format(pat: Pattern): string
  {
    if pat.verb == "" && NoBlank(pat.host + pat.path) then pat.host + pat.path
    else pat.verb + " " + (pat.host + pat.path)
  }

  /** The patterns the parser produces: well shaped, and the host does not start with a blank. */
  predicate Canonical(pat: Pattern)
  {
    WellShaped(pat) && (pat.host == "" || pat.host[0] !in Blanks)
  }

  /** Every parsed pattern is canonical. */
  lemma ParseCanonical(s: string)
    requires ParsePattern(s).Success?
    ensures Canonical(ParsePattern(s).value)
  {
    var pat := ParsePattern(s).value;
    ParseSound(s);
    SplitMethodSpec(s);
    if pat.host != "" {
      var hp := pat.host + pat.path;
      assert hp[0] == pat.host[0];
      if NoBlank(s) && pat.verb == "" && s == hp {
        assert s[0] == hp[0];
      }
    }
  }

  /** Writing a canonical pattern out and parsing it gives the pattern back. */
  lemma ParseFormat(pat: Pattern)
    requires Canonical(pat)
    ensures ParsePattern(Format(pat)) == Success(pat)
  {
    if !(pat.verb == "" && NoBlank(pat.host + pat.path)) {
      FormatSeparated(pat);
    }
    ParseComplete(Format(pat), pat);
  }

  /** The written-out form with a blank separates the method from the host and path. */
  lemma FormatSeparated(pat: Pattern)
    requires Canonical(pat)
    requires !(pat.verb == "" && NoBlank(pat.host + pat.path))
    ensures Separated(Format(pat), pat.verb, pat.host + pat.path)
  {
    var hp := pat.host + pat.path;
    assert hp[0] !in Blanks by {
      if pat.host == "" {
        assert hp[0] == pat.path[0];
      } else {
        assert hp[0] == pat.host[0];
      }
    }
    OneBlank(pat.verb, hp);
  }

  /** A method (or none), one space, and text that does not start with a blank. */
  lemma OneBlank(m: string, hp: string)
    requires m == "" || ValidMethod(m)
    requires hp != "" && hp[0] !in Blanks
    ensures Separated(m + " " + hp, m, hp)
  {
    var s := m + " " + hp;
    if m != "" {
      ValidMethodNoBlank(m);
    }
    assert s[..|m|] == m;
    assert s[|m|] == ' ';
    assert s[|m| + 1..] == hp;
    TrimLeftNothing(hp, Blanks);
  }

  /** Parsing is stable: a parsed pattern, written out again, parses to itself. */
  lemma ParseStable(s: string)
    requires ParsePattern(s).Success?
    ensures ParsePattern(Format(ParsePattern(s).value)) == ParsePattern(s)
  {
    ParseCanonical(s);
    ParseFormat(ParsePattern(s).value);
  }

  /**
    A method that is not a token is reported at offset 0. The method is the
    text before the first blank, so a pattern like "/a b" fails here.
  */
  lemma ParseInvalidMethod(s: string)
    requires s != ""
    ensures var i, r := IndexAny(s, Blanks), ParsePattern(s);
      && (i > 0 && !ValidMethod(s[..i]) ==> r == Failure(At(0, InvalidMethod(s[..i]))))
      && (r.Failure? && r.error.At? && r.error.reason.InvalidMethod? ==> i > 0 && !ValidMethod(s[..i]))
  {
    var sp, i := SplitMethod(s), IndexAny(s, Blanks);
    assert sp.verb == (if i >= 0 then s[..i] else "");
  }

  /** Without a '/' anywhere, a pattern is rejected; the offset of the missing '/' is just past the first blank, or 0. */
  lemma ParseMissingSlash(s: string)
    requires s != "" && '/' !in s
    ensures var i, r := IndexAny(s, Blanks), ParsePattern(s);
      && r.Failure? && r.error.At?
      && (r.error.reason.InvalidMethod? || r.error.reason == MissingSlash)
      && (r.error.reason == MissingSlash ==> r.error.offset == i + 1)
  {
    var sp := SplitMethod(s);
    assert '/' !in sp.rest by {
      if sp.found {
        var i := IndexAny(s, Blanks);
        TrimLeftSuffix(s[i + 1..], Blanks);
      }
    }
  }

  /** The second stage reports the first '{' of the host at its position past `off`. */
  lemma HostPathBrace(m: string, off: nat, h: string, p: string, j: nat)
    requires m == "" || ValidMethod(m)
    requires |p| > 0 && p[0] == '/' && '/' !in h
    requires j < |h| && h[j] == '{' && '{' !in h[..j]
    ensures ParseHostPath(m, off, h + p) == Failure(At(off + j, HostBrace))
  {
    HostSplitOf(h, p);
    FirstIndexOf(h, '{', j);
  }

  /** The offset reported for a '{' in the host is the length of the method and its first blank plus the position of the '{' in the host. */
  lemma ParseHostBrace(s: string, m: string, h: string, p: string, j: nat)
    requires Spells(s, m, h + p)
    requires m == "" || ValidMethod(m)
    requires |p| > 0 && p[0] == '/' && '/' !in h
    requires j < |h| && h[j] == '{' && '{' !in h[..j]
    ensures ParsePattern(s) == Failure(At(MethodEnd(s, m) + j, HostBrace))
  {
    HostPathBrace(m, MethodEnd(s, m), h, p, j);
    ParseVia(s, m, h + p, Failure(At(MethodEnd(s, m) + j, HostBrace)));
  }

  /**
    The brace offset counts the method and only one blank: it points at the
    '{' of `s` exactly when no further blanks follow the first one.
  */
  lemma HostBraceOffsetExact(s: string, m: string, h: string, p: string, j: nat)
    requires Spells(s, m, h + p)
    requires |p| > 0 && p[0] == '/' && '/' !in h
    requires j < |h| && h[j] == '{' && '{' !in h[..j]
    ensures MethodEnd(s, m) + j < |s|
    ensures s[MethodEnd(s, m) + j] == '{' <==> (NoBlank(s) || |s| == |m| + 1 + |h| + |p|)
  {
    var hp := h + p;
    assert hp[j] == '{';
    if !(NoBlank(s) && m == "" && s == hp) {
      assert !NoBlank(s) by {
        assert s[|m|] in Blanks;
      }
      var t := s[|m| + 1..];
      var k := |t| - |hp|;
      assert t[k..] == hp;
      assert s[|m| + 1 + j] == t[j];
      if k > 0 {
        if j < k {
          assert t[j] in Blanks;
        } else {
          assert t[j] == hp[j - k] == h[j - k];
          assert h[j - k] == h[..j][j - k];
        }
      }
    }
  }

  /** The second stage rejects an unclean path when the method is neither absent nor CONNECT. */
  lemma HostPathUnclean(m: string, off: nat, h: string, p: string)
    requires ValidMethod(m) && m != "CONNECT"
    requires |p| > 0 && p[0] == '/' && '/' !in h && '{' !in h
    requires CleanPath(p) != p
    ensures ParseHostPath(m, off, h + p) == Failure(At(off, UncleanPath))
  {
    HostSplitOf(h, p);
  }

  /** A method other than CONNECT with a path that `cleanPath` would change can never match, so the pattern is rejected. */
  lemma ParseUncleanPath(s: string, m: string, h: string, p: string)
    requires Separated(s, m, h + p) && ValidMethod(m) && m != "CONNECT"
    requires |p| > 0 && p[0] == '/' && '/' !in h && '{' !in h
    requires CleanPath(p) != p
    ensures ParsePattern(s) == Failure(At(|m| + 1, UncleanPath))
  {
    assert !NoBlank(s) by {
      assert s[|m|] in Blanks;
    }
    assert MethodEnd(s, m) == |m| + 1;
    HostPathUnclean(m, |m| + 1, h, p);
    ParseVia(s, m, h + p, Failure(At(|m| + 1, UncleanPath)));
  }

  /** CONNECT patterns are exempt from the clean-path rule. */
  lemma ParseConnect(s: string, h: string, p: string)
    requires Separated(s, "CONNECT", h + p)
    requires |p| > 0 && p[0] == '/' && '/' !in h && '{' !in h
    ensures ParsePattern(s) == Success(Pattern("CONNECT", h, p))
  {
    assert ValidMethod("CONNECT");
    ParseComplete(s, Pattern("CONNECT", h, p));
  }

  /** Section 3.2.6 of RFC 7230: a token character is any ASCII character except controls and separators. */
  lemma TokenChars(c: char)
    ensures IsTokenChar(c) <==> (32 <= c as int < 127 && c !in Separators)
  {
  }

  /** A path already built from names is left as it is by `cleanPath`. */
  lemma CleanPathOfNames(st: seq<string>)
    requires GoPath.AllNames(st)
    ensures CleanPath("/" + GoPath.JoinSegs(st)) == "/" + GoPath.JoinSegs(st)
  {
    CleanPathCanonical(st, false);
    assert "/" + GoPath.JoinSegs(st) + "" == "/" + GoPath.JoinSegs(st);
  }

  /** "/a b" is read as the method "/a" followed by the host and path "b", and "/a" is not a token. */
  lemma SlashMethodRejected(s: string)
    requires s == "/a b"
    ensures ParsePattern(s) == Failure(At(0, InvalidMethod("/a")))
  {
    assert IndexAny(s, Blanks) == 2 by {
      FirstIndexAnyOf(s, Blanks, 2);
    }
    assert s[..2] == "/a";
    assert !IsTokenChar('/');
    ParseInvalidMethod(s);
  }

  // ---- the routes the gateway registers ----

  /** A method, one space and a path made of names is in the grammar. */
  lemma RouteAccepted(s: string, verb: string, p: string, st: seq<string>)
    requires ValidMethod(verb) && GoPath.AllNames(st)
    requires p == "/" + GoPath.JoinSegs(st) && s == verb + " " + p
    ensures Accepts(s, Pattern(verb, "", p))
  {
    assert WellShaped(Pattern(verb, "", p)) by {
      CleanPathOfNames(st);
    }
    OneBlank(verb, p);
    assert "" + p == p;
  }

  /** A method, one space and a path made of names: the shape of every route the gateway registers. */
  lemma ParseRoute(s: string, verb: string, p: string, st: seq<string>)
    requires ValidMethod(verb) && GoPath.AllNames(st)
    requires p == "/" + GoPath.JoinSegs(st) && s == verb + " " + p
    ensures ParsePattern(s) == Success(Pattern(verb, "", p))
  {
    RouteAccepted(s, verb, p, st);
    ParseComplete(s, Pattern(verb, "", p));
  }

  /** The readiness probe of the gateway. */
  lemma ReadyRoute(s: string)
    requires s == "GET /ready"
    ensures ParsePattern(s) == Success(Pattern("GET", "", "/ready"))
  {
    GetIsToken();
    ReadySpelled();
    ParseRoute(s, "GET", "/ready", ["ready"]);
  }

  /** The upload route of the gateway. */
  lemma UploadRoute(s: string)
    requires s == "POST /cloud-storage/files"
    ensures ParsePattern(s) == Success(Pattern("POST", "", "/cloud-storage/files"))
  {
    PostIsToken();
    FilesNames();
    FilesPath();
    UploadSpelled();
    ParseRoute(s, "POST", "/cloud-storage/files", ["cloud-storage", "files"]);
  }

  /** The download route of the gateway: a wildcard segment is a name like any other. */
  lemma DownloadRoute(s: string)
    requires s == "GET /cloud-storage/files/{file}"
    ensures ParsePattern(s) == Success(Pattern("GET", "", "/cloud-storage/files/{file}"))
  {
    GetIsToken();
    FileNames();
    FilePath();
    DownloadSpelled();
    ParseRoute(s, "GET", "/cloud-storage/files/{file}", ["cloud-storage", "files", "{file}"]);
  }

  // The literal facts behind the three routes, one small lemma each. They
  // state nothing about the Go code: they only spell out the route strings
  // (token methods, plain path names, the joined path) so that each route
  // lemma above is checked from small, separate steps.

  lemma GetIsToken()
    ensures ValidMethod("GET")
  {
    assert IsTokenChar('G') && IsTokenChar('E') && IsTokenChar('T');
  }

  lemma PostIsToken()
    ensures ValidMethod("POST")
  {
    assert IsTokenChar('P') && IsTokenChar('O') && IsTokenChar('S') && IsTokenChar('T');
  }

  lemma ReadySpelled()
    ensures GoPath.AllNames(["ready"])
    ensures "/ready" == "/" + GoPath.JoinSegs(["ready"])
    ensures "GET /ready" == "GET" + " " + "/ready"
  {
    assert GoPath.IsName("ready");
  }

  lemma FilesNames()
    ensures GoPath.AllNames(["cloud-storage", "files"])
  {
    assert GoPath.IsName("cloud-storage");
    assert GoPath.IsName("files");
  }

  lemma FileNames()
    ensures GoPath.AllNames(["cloud-storage", "files", "{file}"])
  {
    FilesNames();
    assert GoPath.IsName("{file}");
  }

  /** Two names joined by '/'. */
  lemma JoinTwo(a: string, b: string)
    ensures GoPath.JoinSegs([a, b]) == a + "/" + b
  {
    assert [a, b][1..] == [b];
  }

  /** Three names joined by '/'. */
  lemma JoinThree(a: string, b: string, c: string)
    ensures GoPath.JoinSegs([a, b, c]) == a + "/" + (b + "/" + c)
  {
    assert [a, b, c][1..] == [b, c];
    JoinTwo(b, c);
  }

  lemma FilesPath()
    ensures "/cloud-storage/files" == "/" + GoPath.JoinSegs(["cloud-storage", "files"])
  {
    JoinTwo("cloud-storage", "files");
    assert "/cloud-storage/files" == "/" + ("cloud-storage" + "/" + "files");
  }

  lemma FilePath()
    ensures "/cloud-storage/files/{file}" == "/" + GoPath.JoinSegs(["cloud-storage", "files", "{file}"])
  {
    JoinThree("cloud-storage", "files", "{file}");
    assert "/cloud-storage/files/{file}" == "/" + ("cloud-storage" + "/" + ("files" + "/" + "{file}"));
  }

  lemma UploadSpelled()
    ensures "POST /cloud-storage/files" == "POST" + " " + "/cloud-storage/files"
  {
  }

  lemma DownloadSpelled()
    ensures "GET /cloud-storage/files/{file}" == "GET" + " " + "/cloud-storage/files/{file}"
  {
  }
}
