/**
 Path handling of the client: validation, normalisation and the SMB form of a path,
 over the lexical cleaning of Go's `path.Clean`.
 */
module Paths {

  // ---- Strings ----

  function MapChars(s: string, f: char -> char): (r: string)
    ensures |r| == |s| && forall i :: 0 <= i < |s| ==> r[i] == f(s[i])
  {
    seq(|s|, i requires 0 <= i < |s| => f(s[i]))
  }

  /** strings.ReplaceAll of one character by another. */
  function Replace(s: string, a: char, b: char): (r: string)
    ensures |r| == |s| && forall i :: 0 <= i < |s| ==> r[i] == if s[i] == a then b else s[i]
  {
    MapChars(s, c => if c == a then b else c)
  }

  predicate HasPrefix(s: string, p: string) {
    |p| <= |s| && s[..|p|] == p
  }

  predicate SubstringAt(s: string, t: string, i: nat) {
    i + |t| <= |s| && s[i..i + |t|] == t
  }

  predicate Contains(s: string, t: string) {
    exists i :: 0 <= i <= |s| && SubstringAt(s, t, i)
  }

  /** The pieces between slashes. */
  function Split(s: string): (cs: seq<string>)
    ensures |cs| >= 1
  {
    if s == "" then [""]
    else if s[0] == '/' then [""] + Split(s[1..])
    else
      var rest := Split(s[1..]);
      [[s[0]] + rest[0]] + rest[1..]
  }

  function Join(cs: seq<string>): string {
    if cs == [] then "" else if |cs| == 1 then cs[0] else cs[0] + "/" + Join(cs[1..])
  }

  // ---- path.Clean ----

  /** One component against the ones kept so far. */
  function Push(kept: seq<string>, c: string, rooted: bool): seq<string> {
    if c == "" || c == "." then kept
    else if c != ".." then kept + [c]
    else if kept != [] && kept[|kept| - 1] != ".." then kept[..|kept| - 1]
    else if rooted then kept
    else kept + [c]
  }

  function Resolve(kept: seq<string>, cs: seq<string>, rooted: bool): seq<string>
    decreases cs
  {
    if cs == [] then kept else Resolve(Push(kept, cs[0], rooted), cs[1..], rooted)
  }

  function Clean(p: string): (r: string)
    ensures r != ""
  {
    if p == "" then "."
    else
      var rooted := p[0] == '/';
      var cs := Resolve([], Split(p), rooted);
      if rooted then "/" + Join(cs) else if Join(cs) == "" then "." else Join(cs)
  }

  // ---- path.go ----

  /** The cleaned path with its leading slash. */
  function Rooted(p: string): string {
    var c := Clean(Replace(p, '\\', '/'));
    var d := if c == "." then "/" else c;
    if HasPrefix(d, "/") then d else "/" + d
  }

  function Normalize(p: string, lower: char -> char): string {
    if p == "" then "/"
    else
      MapChars(Rooted(p), lower)
  }

  predicate ValidatePath(p: string) {
    && p != ""
    && '\0' !in p
    && var c := Clean(Replace(p, '\\', '/'));
       !HasPrefix(c, "..") && !Contains(c, "/..")
  }

  function ToSmbPath(p: string): string {
    Replace(if HasPrefix(p, "/") then p[1..] else p, '/', '\\')
  }

  function FromSmbPath(p: string): string {
    var q := Replace(p, '\\', '/');
    Clean(if HasPrefix(q, "/") then q else "/" + q)
  }

  /** Case mapping: idempotent, and neutral on separators, dots and NUL. The identity is one (case-sensitive shares). */
  ghost predicate CaseMapping(f: char -> char) {
    && (forall c :: f(f(c)) == f(c))
    && (forall c :: f(c) == '/' <==> c == '/')
    && (forall c :: f(c) == '\\' <==> c == '\\')
    && (forall c :: f(c) == '.' <==> c == '.')
    && (forall c :: f(c) == '\0' <==> c == '\0')
  }

  function LowerAscii(c: char): char {
    if 'A' <= c <= 'Z' then (c as int + 32) as char else c
  }

  lemma LowerAsciiIsCaseMapping()
    ensures CaseMapping(LowerAscii)
  {
  }

  // ---- Canonical paths ----

  /** A component that survives cleaning as it is. */
  predicate IsName(c: string) {
    c != "" && c != "." && c != ".." && '/' !in c
  }

  predicate Names(cs: seq<string>) {
    forall i :: 0 <= i < |cs| ==> IsName(cs[i])
  }

  /** Absolute, without empty, `.` or `..` components and without backslashes. */
  ghost predicate Canonical(p: string) {
    '\\' !in p && exists cs :: Names(cs) && p == "/" + Join(cs)
  }

  lemma {:induction false} SplitName(c: string)
    requires '/' !in c
    ensures Split(c) == [c]
  {
    if c != "" {
      SplitName(c[1..]);
      assert c == [c[0]] + c[1..];
    }
  }

  lemma {:induction false} SplitAtSlash(c: string, rest: string)
    requires '/' !in c
    ensures Split(c + "/" + rest) == [c] + Split(rest)
  {
    var s := c + "/" + rest;
    if c == "" {
      assert s[1..] == rest;
    } else {
      SplitAtSlash(c[1..], rest);
      assert s[1..] == c[1..] + "/" + rest;
      assert c == [c[0]] + c[1..];
    }
  }

  lemma {:induction false} SplitJoin(cs: seq<string>)
    requires cs != [] && forall i :: 0 <= i < |cs| ==> '/' !in cs[i]
    ensures Split(Join(cs)) == cs
  {
    if |cs| == 1 {
      SplitName(cs[0]);
    } else {
      SplitJoin(cs[1..]);
      SplitAtSlash(cs[0], Join(cs[1..]));
    }
  }

  lemma {:induction false} SplitHasNoSlash(s: string)
    ensures forall i :: 0 <= i < |Split(s)| ==> '/' !in Split(s)[i]
  {
    if s != "" {
      SplitHasNoSlash(s[1..]);
    }
  }

  lemma {:induction false} ResolveNames(kept: seq<string>, cs: seq<string>, rooted: bool)
    requires Names(cs)
    ensures Resolve(kept, cs, rooted) == kept + cs
    decreases cs
  {
    if cs != [] {
      ResolveNames(kept + [cs[0]], cs[1..], rooted);
      assert kept + [cs[0]] + cs[1..] == kept + cs;
    }
  }

  lemma ResolveSkipsEmpty(cs: seq<string>)
    ensures Resolve([], [""] + cs, true) == Resolve([], cs, true)
  {
  }

  /** Cleaning keeps an absolute path of plain names. */
  lemma CleanOfNames(cs: seq<string>)
    requires Names(cs)
    ensures Clean("/" + Join(cs)) == "/" + Join(cs)
  {
    var p := "/" + Join(cs);
    assert p[1..] == Join(cs);
    assert Split(p) == [""] + Split(Join(cs));
    ResolveSkipsEmpty(Split(Join(cs)));
    if cs == [] {
      assert Split("") == [""] + [];
      ResolveSkipsEmpty([]);
      assert Resolve([], [], true) == [];
    } else {
      SplitJoin(cs);
      ResolveNames([], cs, true);
      assert [] + cs == cs;
    }
  }

  /** What Resolve keeps: names, and `..` only where nothing was left to go up from. */
  predicate Kept(cs: seq<string>, rooted: bool) {
    forall i :: 0 <= i < |cs| ==> IsName(cs[i]) || (!rooted && cs[i] == "..")
  }

  lemma {:induction false} ResolveKeeps(kept: seq<string>, cs: seq<string>, rooted: bool)
    requires Kept(kept, rooted) && forall i :: 0 <= i < |cs| ==> '/' !in cs[i]
    ensures Kept(Resolve(kept, cs, rooted), rooted)
    decreases cs
  {
    if cs != [] {
      ResolveKeeps(Push(kept, cs[0], rooted), cs[1..], rooted);
    }
  }

  lemma {:induction false} JoinShowsComponent(cs: seq<string>, i: nat)
    requires i < |cs| && cs[i] == ".."
    ensures Contains("/" + Join(cs), "/..")
  {
    var s := "/" + Join(cs);
    if i == 0 {
      assert Join(cs)[..2] == "..";
      assert SubstringAt(s, "/..", 0);
    } else {
      JoinShowsComponent(cs[1..], i - 1);
      var t := "/" + Join(cs[1..]);
      var k :| 0 <= k <= |t| && SubstringAt(t, "/..", k);
      assert s == "/" + cs[0] + t;
      assert s[1 + |cs[0]| + k..1 + |cs[0]| + k + 3] == t[k..k + 3];
      assert SubstringAt(s, "/..", 1 + |cs[0]| + k);
    }
  }

  lemma {:induction false} CharsOfJoin(cs: seq<string>, c: char)
    requires c in Join(cs)
    ensures c == '/' || exists i :: 0 <= i < |cs| && c in cs[i]
  {
    if |cs| > 1 && c != '/' && c !in cs[0] {
      assert c in Join(cs[1..]);
      CharsOfJoin(cs[1..], c);
      var i :| 0 <= i < |cs[1..]| && c in cs[1..][i];
      assert c in cs[i + 1];
    }
  }

  lemma {:induction false} CharsOfSplit(s: string, i: nat, c: char)
    requires i < |Split(s)| && c in Split(s)[i]
    ensures c in s
  {
    if s != "" {
      var rest := Split(s[1..]);
      if s[0] == '/' {
        if i > 0 {
          CharsOfSplit(s[1..], i - 1, c);
        }
      } else if i > 0 {
        assert Split(s)[i] == rest[i];
        CharsOfSplit(s[1..], i, c);
      } else if c != s[0] {
        assert c in rest[0];
        CharsOfSplit(s[1..], 0, c);
      }
    }
  }

  lemma {:induction false} ResolveSelects(kept: seq<string>, cs: seq<string>, rooted: bool, x: string)
    requires x in Resolve(kept, cs, rooted)
    ensures x in kept || x in cs
    decreases cs
  {
    if cs != [] {
      ResolveSelects(Push(kept, cs[0], rooted), cs[1..], rooted, x);
    }
  }

  /** Cleaning invents no character but slashes and dots. */
  lemma CharsOfClean(q: string, c: char)
    requires c in Clean(q) && c != '/' && c != '.'
    ensures c in q
  {
    var cs := Resolve([], Split(q), q[0] == '/');
    CharsOfJoin(cs, c);
    var i :| 0 <= i < |cs| && c in cs[i];
    ResolveSelects([], Split(q), q[0] == '/', cs[i]);
    var j :| 0 <= j < |Split(q)| && Split(q)[j] == cs[i];
    CharsOfSplit(q, j, c);
  }

  // ---- What validation buys ----

  /** The components an accepted path is made of. */
  function Parts(p: string): seq<string>
    requires p != ""
  {
    Resolve([], Split(Replace(p, '\\', '/')), Replace(p, '\\', '/')[0] == '/')
  }

  lemma JoinStarts(cs: seq<string>)
    requires cs != [] && cs[0] != ""
    ensures Join(cs) != "" && Join(cs)[0] == cs[0][0]
  {
  }

  lemma JoinIsNotDot(cs: seq<string>)
    requires cs != [] && Names(cs)
    ensures Join(cs) != "."
  {
  }

  lemma PrefixOrInside(t: string)
    ensures Contains("/" + t, "/..") ==> HasPrefix(t, "..") || Contains(t, "/..")
  {
    var s := "/" + t;
    if Contains(s, "/..") {
      var k :| 0 <= k <= |s| && SubstringAt(s, "/..", k);
      if k == 0 {
        assert t[..2] == s[0..3][1..];
      } else {
        assert t[k - 1..k + 2] == s[k..k + 3];
        assert SubstringAt(t, "/..", k - 1);
      }
    }
  }

  /** An accepted path cleans to its parts, all of them plain names. */
  lemma AcceptedParts(p: string)
    requires ValidatePath(p)
    ensures Names(Parts(p))
    ensures var c := Clean(Replace(p, '\\', '/'));
            c == "/" + Join(Parts(p)) || (c == "." && Parts(p) == []) || (Parts(p) != [] && c == Join(Parts(p)))
  {
    var q := Replace(p, '\\', '/');
    var cs := Parts(p);
    SplitHasNoSlash(q);
    ResolveKeeps([], Split(q), q[0] == '/');
    PrefixOrInside(Join(cs));
    if cs != [] {
      assert cs[0] != "";
      JoinStarts(cs);
    }
    forall i | 0 <= i < |cs|
      ensures cs[i] != ".."
    {
      if cs[i] == ".." {
        JoinShowsComponent(cs, i);
      }
    }
  }

  /** Normalisation of an accepted path, before case mapping. */
  lemma NormalizeParts(p: string)
    requires ValidatePath(p)
    ensures Names(Parts(p)) && Rooted(p) == "/" + Join(Parts(p))
  {
    AcceptedParts(p);
    var cs := Parts(p);
    if cs != [] {
      JoinStarts(cs);
      JoinIsNotDot(cs);
      assert cs[0][0] in cs[0];
    }
  }

  function MapParts(cs: seq<string>, f: char -> char): (r: seq<string>)
    ensures |r| == |cs| && forall i :: 0 <= i < |cs| ==> r[i] == MapChars(cs[i], f)
  {
    seq(|cs|, i requires 0 <= i < |cs| => MapChars(cs[i], f))
  }

  lemma {:induction false} MapJoin(cs: seq<string>, f: char -> char)
    requires CaseMapping(f)
    ensures MapChars(Join(cs), f) == Join(MapParts(cs, f))
  {
    if |cs| > 1 {
      MapJoin(cs[1..], f);
      assert MapParts(cs, f)[1..] == MapParts(cs[1..], f);
      assert MapChars(cs[0] + "/" + Join(cs[1..]), f)
          == MapChars(cs[0], f) + "/" + MapChars(Join(cs[1..]), f);
    }
  }

  lemma MapName(c: string, f: char -> char)
    requires CaseMapping(f) && IsName(c)
    ensures IsName(MapChars(c, f))
  {
  }

  lemma CleanLacks(q: string, c: char)
    requires c !in q && c != '/' && c != '.'
    ensures c !in Clean(q)
  {
    if c in Clean(q) {
      CharsOfClean(q, c);
    }
  }

  lemma NoBackslash(p: string, lower: char -> char)
    requires ValidatePath(p) && CaseMapping(lower)
    ensures '\\' !in Normalize(p, lower) && '\0' !in Normalize(p, lower)
  {
    var q := Replace(p, '\\', '/');
    CleanLacks(q, '\\');
    CleanLacks(q, '\0');
    var e, n := Rooted(p), Normalize(p, lower);
    assert forall i :: 0 <= i < |n| ==> n[i] == lower(e[i]);
  }

  /** An accepted path normalises to a canonical one. */
  lemma NormalizeIsCanonical(p: string, lower: char -> char)
    requires ValidatePath(p) && CaseMapping(lower)
    ensures Canonical(Normalize(p, lower))
  {
    NormalizeParts(p);
    NoBackslash(p, lower);
    var cs := Parts(p);
    var ms := MapParts(cs, lower);
    forall i | 0 <= i < |cs|
      ensures IsName(ms[i])
    {
      MapName(cs[i], lower);
    }
    MapJoin(cs, lower);
    assert Normalize(p, lower) == "/" + Join(ms);
  }

  lemma ReplaceNothing(p: string, a: char, b: char)
    requires a !in p
    ensures Replace(p, a, b) == p
  {
  }

  /** Cleaning leaves canonical paths alone. */
  lemma CanonicalIsClean(p: string)
    requires Canonical(p)
    ensures Replace(p, '\\', '/') == p && Clean(p) == p
  {
    ReplaceNothing(p, '\\', '/');
    var cs :| Names(cs) && p == "/" + Join(cs);
    CleanOfNames(cs);
  }

  /** Normalising twice is normalising once. */
  lemma NormalizeIsIdempotent(p: string, lower: char -> char)
    requires ValidatePath(p) && CaseMapping(lower)
    ensures Normalize(Normalize(p, lower), lower) == Normalize(p, lower)
  {
    var n := Normalize(p, lower);
    NormalizeIsCanonical(p, lower);
    CanonicalIsClean(n);
    assert MapChars(n, lower) == n;
  }

  lemma MapDots(e: string, f: char -> char)
    requires CaseMapping(f)
    ensures Contains(MapChars(e, f), "/..") ==> Contains(e, "/..")
  {
    var m := MapChars(e, f);
    if Contains(m, "/..") {
      var i :| 0 <= i <= |m| && SubstringAt(m, "/..", i);
      assert m[i] == m[i..i + 3][0] && m[i + 1] == m[i..i + 3][1] && m[i + 2] == m[i..i + 3][2];
      assert e[i..i + 3] == "/..";
      assert SubstringAt(e, "/..", i);
    }
  }

  /** A normalised path is still accepted. */
  lemma NormalizeStaysValid(p: string, lower: char -> char)
    requires ValidatePath(p) && CaseMapping(lower)
    ensures ValidatePath(Normalize(p, lower))
  {
    var n := Normalize(p, lower);
    NormalizeIsCanonical(p, lower);
    CanonicalIsClean(n);
    NoBackslash(p, lower);
    PrefixOrInside(Clean(Replace(p, '\\', '/')));
    MapDots(Rooted(p), lower);
    assert !HasPrefix(n, "..") by {
      assert n[0] == '/';
    }
    assert !Contains("/", "/..");
  }

  /** The SMB form of a canonical path loses nothing. */
  lemma SmbPathRoundTrip(p: string)
    requires Canonical(p)
    ensures FromSmbPath(ToSmbPath(p)) == p
  {
    var cs :| Names(cs) && p == "/" + Join(cs);
    var j := Join(cs);
    assert p[1..] == j;
    assert '\\' !in j by { assert forall c :: c in j ==> c in p; }
    var q := Replace(ToSmbPath(p), '\\', '/');
    assert q == j;
    if cs != [] {
      JoinStarts(cs);
      assert cs[0][0] in cs[0];
    }
    CleanOfNames(cs);
  }

  // ---- Where a path leads ----

  /** One step in a tree of names: stay, go up (the root has no parent), or go down. */
  function Go(at: seq<string>, c: string): seq<string> {
    if c == "" || c == "." then at
    else if c == ".." then (if at == [] then [] else at[..|at| - 1])
    else at + [c]
  }

  /** The place that a path leads to, step by step. */
  function Follow(at: seq<string>, cs: seq<string>): seq<string>
    decreases cs
  {
    if cs == [] then at else Follow(Go(at, cs[0]), cs[1..])
  }

  lemma {:induction false} StaysAbove(kept: seq<string>, cs: seq<string>, rooted: bool)
    requires ".." in kept
    ensures ".." in Resolve(kept, cs, rooted)
    decreases cs
  {
    if cs != [] {
      StaysAbove(Push(kept, cs[0], rooted), cs[1..], rooted);
    }
  }

  /** Cleaning that leaves no `..` behind has followed the path. */
  lemma {:induction false} ResolveFollows(kept: seq<string>, cs: seq<string>, rooted: bool)
    requires ".." !in kept
    ensures ".." !in Resolve(kept, cs, rooted) ==> Resolve(kept, cs, rooted) == Follow(kept, cs)
    decreases cs
  {
    if cs != [] {
      var kept' := Push(kept, cs[0], rooted);
      if ".." in kept' {
        StaysAbove(kept', cs[1..], rooted);
      } else {
        ResolveFollows(kept', cs[1..], rooted);
      }
    }
  }

  lemma {:induction false} FollowNames(at: seq<string>, cs: seq<string>)
    requires Names(cs)
    ensures Follow(at, cs) == at + cs
    decreases cs
  {
    if cs != [] {
      assert IsName(cs[0]);
      FollowNames(at + [cs[0]], cs[1..]);
      assert at + cs == at + [cs[0]] + cs[1..];
    }
  }

  /** An absolute path of plain names leads to those names. */
  lemma FollowCanonical(cs: seq<string>)
    requires Names(cs)
    ensures Follow([], Split("/" + Join(cs))) == cs
  {
    var s := "/" + Join(cs);
    assert s[1..] == Join(cs);
    if cs == [] {
      assert Join(cs) == "" && Split("") == [""];
      assert Split(s) == [""] + [""];
      assert ([""] + [""])[1..] == [""] && [""][1..] == [];
      assert Follow([], [""]) == Follow([], []);
    } else {
      SplitJoin(cs);
      assert Split(s) == [""] + cs && ([""] + cs)[1..] == cs;
      FollowNames([], cs);
    }
  }

  /** A normalised path leads where the path led, up to the case of letters. */
  lemma NormalizeLeadsThere(p: string, lower: char -> char)
    requires ValidatePath(p) && CaseMapping(lower)
    ensures Follow([], Split(Normalize(p, lower))) == MapParts(Follow([], Split(Replace(p, '\\', '/'))), lower)
  {
    NormalizeParts(p);
    var cs := Parts(p);
    var q := Replace(p, '\\', '/');
    hide Normalize, Rooted;
    assert ".." !in cs by { assert Names(cs); }
    ResolveFollows([], Split(q), q[0] == '/');
    var ms := MapParts(cs, lower);
    forall i | 0 <= i < |ms|
      ensures IsName(ms[i])
    {
      assert IsName(cs[i]);
      MapName(cs[i], lower);
    }
    NormalizeShape(p, lower);
    FollowCanonical(ms);
  }

  lemma NormalizeShape(p: string, lower: char -> char)
    requires ValidatePath(p) && CaseMapping(lower)
    ensures Normalize(p, lower) == "/" + Join(MapParts(Parts(p), lower))
  {
    NormalizeParts(p);
    MapJoin(Parts(p), lower);
    assert MapChars("/" + Join(Parts(p)), lower) == "/" + MapChars(Join(Parts(p)), lower);
  }

  /** A path from the server leads where its SMB form leads, from the root. */
  lemma FromSmbLeadsThere(p: string)
    ensures Follow([], Split(FromSmbPath(p))) == Follow([], Split(Replace(p, '\\', '/')))
  {
    var q := Replace(p, '\\', '/');
    var r := if HasPrefix(q, "/") then q else "/" + q;
    var cs := Resolve([], Split(r), true);
    SplitHasNoSlash(r);
    ResolveKeeps([], Split(r), true);
    assert ".." !in cs;
    ResolveFollows([], Split(r), true);
    FollowCanonical(cs);
    if !HasPrefix(q, "/") {
      assert r[1..] == q && Split(r) == [""] + Split(q);
      assert ([""] + Split(q))[1..] == Split(q);
    }
  }

  /** The SMB form of an absolute path: the same characters without the leading slash, with backslashes for slashes. */
  lemma ToSmbMeans(p: string)
    requires HasPrefix(p, "/")
    ensures var r := ToSmbPath(p);
            && |r| == |p| - 1 && '/' !in r
            && forall i :: 0 <= i < |r| ==> r[i] == if p[i + 1] == '/' then '\\' else p[i + 1]
  {
  }

  // ---- What validation refuses ----

  lemma {:induction false} ShowsPrefix(cs: seq<string>, i: nat)
    requires i < |cs| && HasPrefix(cs[i], "..")
    ensures Contains("/" + Join(cs), "/..")
  {
    var s := "/" + Join(cs);
    if i == 0 {
      assert Join(cs)[..2] == cs[0][..2] == "..";
      assert SubstringAt(s, "/..", 0);
    } else {
      ShowsPrefix(cs[1..], i - 1);
      var t := "/" + Join(cs[1..]);
      var k :| 0 <= k <= |t| && SubstringAt(t, "/..", k);
      assert s == "/" + cs[0] + t;
      assert s[1 + |cs[0]| + k..1 + |cs[0]| + k + 3] == t[k..k + 3];
      assert SubstringAt(s, "/..", 1 + |cs[0]| + k);
    }
  }

  lemma StartsDotted(c: string, rest: string)
    requires '/' !in c && HasPrefix(c + rest, "..") && (rest == "" || rest[0] == '/')
    ensures HasPrefix(c, "..")
  {
    assert (c + rest)[0] == '.' && (c + rest)[1] == '.';
    if |c| >= 2 {
      assert c[..2] == (c + rest)[..2];
    }
  }

  lemma SlashIsLater(c: string, rest: string, k: nat)
    requires '/' !in c && k < |c + rest| && (c + rest)[k] == '/'
    ensures k >= |c|
  {
  }

  lemma ShownLater(c: string, rest: string, k: nat)
    requires '/' !in c && SubstringAt("/" + (c + rest), "/..", k) && k > 0
    ensures Contains(rest, "/..")
  {
    var s := "/" + (c + rest);
    assert s[k] == s[k..k + 3][0] == '/' && (c + rest)[k - 1] == s[k];
    SlashIsLater(c, rest, k - 1);
    var j := k - 1 - |c|;
    assert rest[j..j + 3] == s[k..k + 3];
    assert SubstringAt(rest, "/..", j);
  }

  lemma {:induction false} PrefixShown(cs: seq<string>)
    requires (forall i :: 0 <= i < |cs| ==> '/' !in cs[i]) && Contains("/" + Join(cs), "/..")
    ensures exists i :: 0 <= i < |cs| && HasPrefix(cs[i], "..")
  {
    var s := "/" + Join(cs);
    var k :| 0 <= k <= |s| && SubstringAt(s, "/..", k);
    if cs != [] {
      var rest := if |cs| == 1 then "" else "/" + Join(cs[1..]);
      assert Join(cs) == cs[0] + rest;
      if k == 0 {
        assert Join(cs)[..2] == s[0..3][1..] == "..";
        StartsDotted(cs[0], rest);
      } else {
        ShownLater(cs[0], rest, k);
        if |cs| > 1 {
          PrefixShown(cs[1..]);
          var i :| 0 <= i < |cs[1..]| && HasPrefix(cs[1..][i], "..");
          assert HasPrefix(cs[i + 1], "..");
        } else {
          DotShowsNothing();
        }
      }
    }
  }

  lemma DottedIff(t: string)
    ensures Contains("/" + t, "/..") <==> HasPrefix(t, "..") || Contains(t, "/..")
  {
    PrefixOrInside(t);
    var s := "/" + t;
    if HasPrefix(t, "..") {
      assert s[0..3] == "/" + t[..2];
      assert SubstringAt(s, "/..", 0);
    }
    if Contains(t, "/..") {
      var k :| 0 <= k <= |t| && SubstringAt(t, "/..", k);
      assert s[k + 1..k + 4] == t[k..k + 3];
      assert SubstringAt(s, "/..", k + 1);
    }
  }

  /** Refused are exactly the empty path, paths with a NUL, and paths that keep a component that starts with two dots. */
  lemma ValidateIff(p: string)
    ensures ValidatePath(p) <==>
            p != "" && '\0' !in p && forall i :: 0 <= i < |Parts(p)| ==> !HasPrefix(Parts(p)[i], "..")
  {
    if p != "" {
      var q, cs := Replace(p, '\\', '/'), Parts(p);
      SplitHasNoSlash(q);
      ResolveKeeps([], Split(q), q[0] == '/');
      assert forall i :: 0 <= i < |cs| ==> '/' !in cs[i];
      var shown := Contains("/" + Join(cs), "/..");
      if shown {
        PrefixShown(cs);
      }
      forall i | 0 <= i < |cs| && HasPrefix(cs[i], "..")
        ensures shown
      {
        ShowsPrefix(cs, i);
      }
      DottedIff(Join(cs));
      CleanShows(p);
    }
  }

  lemma CleanShows(p: string)
    requires p != ""
    ensures var c := Clean(Replace(p, '\\', '/'));
            HasPrefix(c, "..") || Contains(c, "/..") <==> Contains("/" + Join(Parts(p)), "/..")
  {
    hide Resolve, Split, Join, Contains, HasPrefix;
    var q := Replace(p, '\\', '/');
    var t := Join(Parts(p));
    DottedIff(t);
    DotShowsNothing();
    SlashIsNotDot(t);
    assert q != "" && Clean(q) == if q[0] == '/' then "/" + t else if t == "" then "." else t;
  }

  lemma SlashIsNotDot(t: string)
    ensures !HasPrefix("/" + t, "..")
  {
    var s := "/" + t;
    assert |s| >= 2 ==> s[..2][0] == '/' && ".."[0] == '.';
  }

  lemma DotShowsNothing()
    ensures !HasPrefix(".", "..") && !Contains(".", "/..") && !HasPrefix("", "..") && !Contains("", "/..")
  {
  }
}
