/**
 * The URL table of the accounts application: an ordered list of patterns,
 * tried in order, the first match winning. Paths are the part of the URL
 * that this table sees (no leading slash).
 */
module Routes {
  import opened Wrappers
  import opened Text
  import opened Matching

  /** The three pattern shapes of the table. */
  datatype Pattern =
    | Exact(literal: string)   // ^literal$
    | ResetConfirm             // ^reset/(?P<uidb36>[0-9A-Za-z]{1,13})-(?P<token>[0-9A-Za-z]{1,13}-[0-9A-Za-z]{1,20})/$
    | UsernamePrefix           // ^(?P<username>[\w\-]+)    (no `$`)

  datatype Route = Route(name: string, pattern: Pattern)

  /** The named groups a pattern captured. */
  type Captures = map<string, string>

  /** The route that resolved a path: its position in the table, its name and its captures. */
  datatype Resolution = Resolution(index: nat, name: string, captures: Captures)

  /** `urlpatterns`, in order. */
  const UrlPatterns: seq<Route> := [
    Route("users_index", Exact("")),
    Route("users_login", Exact("login")),
    Route("users_logout", Exact("logout")),
    Route("password_reset", Exact("password/")),
    Route("password_reset_done", Exact("password/completo")),
    Route("password_reset_confirm", ResetConfirm),
    Route("password_reset_complete", Exact("reset/completo/")),
    Route("users_register", Exact("register")),
    Route("users_account", Exact("cuenta")),
    Route("users_personal", Exact("personal")),
    Route("users_design", Exact("diseno")),
    Route("users_profile", Exact("profile")),
    Route("users_profile", UsernamePrefix)
  ]

  /** `[0-9A-Za-z]{lo,hi}` as a whole string. */
  predicate AlnumRun(s: string, lo: nat, hi: nat) {
    lo <= |s| <= hi && AllIn(s, Alnum)
  }

  /** The shape of a reset uid. */
  predicate IsUid(s: string) { AlnumRun(s, 1, 13) }

  /** The shape of a reset token: two alphanumeric runs around a '-'. */
  predicate IsToken(t: string) {
    exists k :: 0 <= k < |t| && t[k] == '-' && AlnumRun(t[..k], 1, 13) && AlnumRun(t[k + 1..], 1, 20)
  }

  /** `^literal$`. */
  function MatchExact(literal: string, path: string): (r: Option<Captures>)
    ensures r.Some? <==> path == literal || path == literal + "\n"
    ensures r.Some? ==> r.value == map[]
  {
    if LiteralAt(path, 0, literal) && EndAt(path, |literal|) then
      assert path == literal || path == literal + "\n" by {
        if |path| > |literal| { assert path == path[..|literal|] + [path[|literal|]]; }
      }
      Some(map[])
    else
      None
  }

  /**
   * `[0-9A-Za-z]{1,hi}` from position `i`, then the character `c`, which is
   * not alphanumeric: the position of `c`. The class never contains the
   * character that follows it, so the match exists exactly when the greedy
   * run has an allowed length and `c` follows it.
   */
  function RunThen(s: string, i: nat, hi: nat, c: char): (r: Option<nat>)
    requires i <= |s|
    ensures r.Some? ==> i < r.value <= i + hi && r.value < |s| && s[r.value] == c
                        && AllIn(s[i..r.value], Alnum)
  {
    var e := i + Span(s, i, Alnum);
    if i < e <= i + hi && e < |s| && s[e] == c then Some(e) else None
  }

  lemma RunThenComplete(s: string, i: nat, hi: nat, c: char, n: nat)
    requires i + n < |s| && 1 <= n <= hi && !IsAsciiAlnum(c)
    requires AllIn(s[i..i + n], Alnum) && s[i + n] == c
    ensures RunThen(s, i, hi, c) == Some(i + n)
  {
    assert forall j :: i <= j < i + n ==> s[j] == s[i..i + n][j - i];
    SpanIs(s, i, Alnum, n);
  }

  /** The reset-confirm pattern: `reset/`, the uid, '-', the token's two runs around '-', then `/$`. */
  function MatchResetConfirm(path: string): Option<Captures> {
    if !LiteralAt(path, 0, "reset/") then None
    else match RunThen(path, 6, 13, '-')
      case None => None
      case Some(i) => MatchConfirmToken(path, i)
  }

  /** The token after the uid that ends at `i`: two runs around '-', then `/$`. */
  function MatchConfirmToken(path: string, i: nat): Option<Captures>
    requires 6 <= i < |path|
  {
    match RunThen(path, i + 1, 13, '-')
    case None => None
    case Some(j) => match RunThen(path, j + 1, 20, '/')
      case None => None
      case Some(k) =>
        if EndAt(path, k + 1) then Some(map["uidb36" := path[6..i], "token" := path[i + 1..k]]) else None
  }

  /** `^(?P<username>[\w\-]+)`: the longest prefix of word characters and '-', if it is not empty. */
  function MatchUsernamePrefix(path: string): (r: Option<Captures>)
    ensures r.Some? <==> |path| > 0 && InClass(path[0], WordOrDash)
    ensures r.Some? ==> r.value.Keys == {"username"} && (var u := r.value["username"];
              && 1 <= |u| && u <= path && AllIn(u, WordOrDash)
              && (|u| == |path| || !InClass(path[|u|], WordOrDash)))
  {
    var k := Span(path, 0, WordOrDash);
    if k == 0 then None else Some(map["username" := path[..k]])
  }

  function MatchPattern(p: Pattern, path: string): Option<Captures> {
    match p
    case Exact(literal) => MatchExact(literal, path)
    case ResetConfirm => MatchResetConfirm(path)
    case UsernamePrefix => MatchUsernamePrefix(path)
  }

  /** The first route at or after `from` whose pattern matches. */
  function FirstMatch(routes: seq<Route>, path: string, from: nat): (r: Option<Resolution>)
    requires from <= |routes|
    ensures r.Some? ==> && from <= r.value.index < |routes|
                        && r.value.name == routes[r.value.index].name
                        && MatchPattern(routes[r.value.index].pattern, path) == Some(r.value.captures)
    ensures forall j :: from <= j < (if r.Some? then r.value.index else |routes|) ==>
              MatchPattern(routes[j].pattern, path).None?
    decreases |routes| - from
  {
    if from == |routes| then None
    else match MatchPattern(routes[from].pattern, path)
      case Some(c) => Some(Resolution(from, routes[from].name, c))
      case None => FirstMatch(routes, path, from + 1)
  }

  /** Resolving a path: routes are tried in list order. */
  function Resolve(routes: seq<Route>, path: string): Option<Resolution> {
    FirstMatch(routes, path, 0)
  }

  /** A route is the resolution exactly when it matches and no earlier route does. */
  lemma ResolveIsFirstMatch(routes: seq<Route>, path: string, i: nat)
    requires i < |routes| && MatchPattern(routes[i].pattern, path).Some?
    requires forall j :: 0 <= j < i ==> MatchPattern(routes[j].pattern, path).None?
    ensures Resolve(routes, path) == Some(Resolution(i, routes[i].name, MatchPattern(routes[i].pattern, path).value))
  {
  }

  // ---- The reset-confirm route --------------------------------------------

  /** The path that the confirm route is reversed to for a uid and a token. */
  function ConfirmPath(uid: string, token: string): string {
    "reset/" + uid + "-" + token + "/"
  }

  /**
   * Whatever the confirm pattern captures is a uid of 1 to 13 alphanumerics
   * and a token of the reset shape, and the path is the one reversed from
   * them, possibly with one final newline.
   */
  lemma ResetConfirmSound(path: string)
    requires MatchResetConfirm(path).Some?
    ensures var c := MatchResetConfirm(path).value;
            && "uidb36" in c && "token" in c
            && IsUid(c["uidb36"]) && IsToken(c["token"])
            && (path == ConfirmPath(c["uidb36"], c["token"]) || path == ConfirmPath(c["uidb36"], c["token"]) + "\n")
  {
    assert LiteralAt(path, 0, "reset/");
    var i := RunThen(path, 6, 13, '-').value;
    ConfirmTokenSound(path, i);
  }

  /** What a token match after the uid found, given the uid it follows. */
  lemma ConfirmTokenSound(path: string, i: nat)
    requires 6 < i < |path| && i <= 6 + 13 && path[..6] == "reset/" && path[i] == '-' && AllIn(path[6..i], Alnum)
    requires MatchConfirmToken(path, i).Some?
    ensures var c := MatchConfirmToken(path, i).value;
            && "uidb36" in c && "token" in c
            && IsUid(c["uidb36"]) && IsToken(c["token"])
            && (path == ConfirmPath(c["uidb36"], c["token"]) || path == ConfirmPath(c["uidb36"], c["token"]) + "\n")
  {
    var j := RunThen(path, i + 1, 13, '-').value;
    var k := RunThen(path, j + 1, 20, '/').value;
    var c := MatchConfirmToken(path, i).value;
    assert c == map["uidb36" := path[6..i], "token" := path[i + 1..k]];
    ConfirmShape(path, i, j, k);
    assert c["uidb36"] == path[6..i] && c["token"] == path[i + 1..k];
  }

  /** The three runs a confirm match found give a uid, a token and the path they rebuild. */
  lemma ConfirmShape(path: string, i: nat, j: nat, k: nat)
    requires 6 < i < j < k < |path| && path[..6] == "reset/"
    requires i - 6 <= 13 && j - i - 1 <= 13 && k - j - 1 <= 20 && i + 1 < j && j + 1 < k
    requires AllIn(path[6..i], Alnum) && AllIn(path[i + 1..j], Alnum) && AllIn(path[j + 1..k], Alnum)
    requires path[i] == '-' && path[j] == '-' && path[k] == '/' && EndAt(path, k + 1)
    ensures IsUid(path[6..i]) && IsToken(path[i + 1..k])
    ensures path == ConfirmPath(path[6..i], path[i + 1..k]) || path == ConfirmPath(path[6..i], path[i + 1..k]) + "\n"
  {
    TokenShape(path, i, j, k);
    PathShape(path, i, k);
  }

  lemma TokenShape(path: string, i: nat, j: nat, k: nat)
    requires i < j < k < |path|
    requires j - i - 1 <= 13 && k - j - 1 <= 20 && path[j] == '-'
    requires AllIn(path[i + 1..j], Alnum) && AllIn(path[j + 1..k], Alnum)
    requires i + 1 < j && j + 1 < k
    ensures IsToken(path[i + 1..k])
  {
    var token, a, b := path[i + 1..k], path[i + 1..j], path[j + 1..k];
    assert token == a + "-" + b by {
      assert path[i + 1..k] == path[i + 1..j] + [path[j]] + path[j + 1..k];
    }
    assert token[|a|] == '-' && token[..|a|] == a && token[|a| + 1..] == b;
  }

  lemma PathShape(path: string, i: nat, k: nat)
    requires 6 < i < k < |path| && path[..6] == "reset/" && path[i] == '-' && path[k] == '/'
    requires EndAt(path, k + 1)
    ensures path == ConfirmPath(path[6..i], path[i + 1..k]) || path == ConfirmPath(path[6..i], path[i + 1..k]) + "\n"
  {
    assert path[..k + 1] == ConfirmPath(path[6..i], path[i + 1..k]) by {
      assert path[..k + 1] == path[..6] + path[6..i] + [path[i]] + path[i + 1..k] + [path[k]];
    }
    assert path == path[..k + 1] + path[k + 1..];
  }

  /**
   * Every uid and token of the reset shape give a path, with or without one
   * final newline, that the confirm pattern captures them back from.
   */
  lemma ResetConfirmComplete(uid: string, token: string, tail: string)
    requires IsUid(uid) && IsToken(token) && (tail == "" || tail == "\n")
    ensures MatchResetConfirm(ConfirmPath(uid, token) + tail) == Some(map["uidb36" := uid, "token" := token])
  {
    var m :| 0 <= m < |token| && token[m] == '-' && AlnumRun(token[..m], 1, 13) && AlnumRun(token[m + 1..], 1, 20);
    ConfirmSplitAt(uid, token, tail, m);
  }

  /** The same, with the '-' inside the token given: the runs sit where the link puts them. */
  lemma ConfirmSplitAt(uid: string, token: string, tail: string, m: nat)
    requires IsUid(uid) && (tail == "" || tail == "\n")
    requires m < |token| && token[m] == '-' && AlnumRun(token[..m], 1, 13) && AlnumRun(token[m + 1..], 1, 20)
    ensures MatchResetConfirm(ConfirmPath(uid, token) + tail) == Some(map["uidb36" := uid, "token" := token])
  {
    var path := ConfirmPath(uid, token) + tail;
    var i := 6 + |uid|;
    var j, k := i + 1 + m, i + 1 + |token|;
    assert path[..6] == "reset/";
    assert path[6..i] == uid && path[i] == '-';
    assert path[i + 1..k] == token && path[k] == '/';
    assert path[i + 1..j] == token[..m] && path[j] == '-';
    assert path[j + 1..k] == token[m + 1..];
    ConfirmRuns(path, i, j, k);
  }

  /** The three runs of a confirm path, found where they are. */
  lemma ConfirmRuns(path: string, i: nat, j: nat, k: nat)
    requires 6 < i < j < k < |path| && path[..6] == "reset/"
    requires i - 6 <= 13 && j - i - 1 <= 13 && k - j - 1 <= 20 && i + 1 < j && j + 1 < k
    requires AllIn(path[6..i], Alnum) && AllIn(path[i + 1..j], Alnum) && AllIn(path[j + 1..k], Alnum)
    requires path[i] == '-' && path[j] == '-' && path[k] == '/' && EndAt(path, k + 1)
    ensures MatchResetConfirm(path) == Some(map["uidb36" := path[6..i], "token" := path[i + 1..k]])
  {
    RunThenComplete(path, 6, 13, '-', i - 6);
    RunThenComplete(path, i + 1, 13, '-', j - i - 1);
    RunThenComplete(path, j + 1, 20, '/', k - j - 1);
    ConfirmStages(path, i, j, k);
  }

  /** The confirm pattern matches exactly when its three runs are found one after another and the path ends there. */
  lemma ConfirmStages(path: string, i: nat, j: nat, k: nat)
    requires 6 < |path| && i < |path| && j < |path|
    requires RunThen(path, 6, 13, '-') == Some(i) && RunThen(path, i + 1, 13, '-') == Some(j)
    requires RunThen(path, j + 1, 20, '/') == Some(k)
    requires path[..6] == "reset/" && EndAt(path, k + 1)
    ensures MatchResetConfirm(path) == Some(map["uidb36" := path[6..i], "token" := path[i + 1..k]])
  {
    assert LiteralAt(path, 0, "reset/");
  }

  /** A uid holds no '-', so a confirm path splits into uid and token at its first '-' only. */
  lemma ResetConfirmUnique(u1: string, t1: string, u2: string, t2: string)
    requires IsUid(u1) && IsUid(u2) && ConfirmPath(u1, t1) == ConfirmPath(u2, t2)
    ensures u1 == u2 && t1 == t2
  {
    var p := ConfirmPath(u1, t1);
    assert p == ConfirmPath(u2, t2);
    assert p[6 + |u1|] == '-' && p[6 + |u2|] == '-';
    assert forall m :: 6 <= m < 6 + |u1| ==> p[m] == u1[m - 6];
    assert forall m :: 6 <= m < 6 + |u2| ==> p[m] == u2[m - 6];
    SpanIs(p, 6, Alnum, |u1|);
    SpanIs(p, 6, Alnum, |u2|);
    assert u1 == p[6..6 + |u1|] == u2;
    assert t1 == p[7 + |u1|..|p| - 1] == t2;
  }

  /** A confirm path holds a '-', so `reset/completo/` is not one. */
  lemma ResetConfirmNeedsDash(path: string)
    requires MatchResetConfirm(path).Some?
    ensures '-' in path
  {
    var i := RunThen(path, 6, 13, '-').value;
    assert path[i] == '-';
  }

  // ---- One final newline --------------------------------------------------

  /** The path does not already end in a newline. */
  predicate NoFinalNewline(p: string) {
    |p| == 0 || p[|p| - 1] != '\n'
  }

  /** A pattern whose literal holds no newline; every pattern of the table is one. */
  predicate NewlineFree(p: Pattern) {
    p.Exact? ==> '\n' !in p.literal
  }

  lemma TableIsNewlineFree()
    ensures forall j :: 0 <= j < |UrlPatterns| ==> NewlineFree(UrlPatterns[j].pattern)
  {
    forall j | 0 <= j < |UrlPatterns| ensures NewlineFree(UrlPatterns[j].pattern) {
      var p := UrlPatterns[j].pattern;
      if p.Exact? {
        assert forall m :: 0 <= m < |p.literal| ==> p.literal[m] != '\n';
      }
    }
  }

  /** No class holds '\n', so a newline after the text ends every run where the text ends. */
  lemma SpanBeforeNewline(p: string, i: nat, cls: CharClass)
    requires i <= |p|
    ensures Span(p + "\n", i, cls) == Span(p, i, cls)
  {
    var k := Span(p, i, cls);
    assert forall j :: i <= j < i + k ==> (p + "\n")[j] == p[j];
    assert (p + "\n")[|p|] == '\n';
    SpanIs(p + "\n", i, cls, k);
  }

  lemma ExactBeforeNewline(lit: string, p: string)
    requires '\n' !in lit && NoFinalNewline(p)
    ensures MatchExact(lit, p + "\n") == MatchExact(lit, p)
  {
    if p + "\n" == lit + "\n" {
      assert p == (p + "\n")[..|p|] == (lit + "\n")[..|lit|] == lit;
    }
  }

  lemma UsernamePrefixBeforeNewline(p: string)
    ensures MatchUsernamePrefix(p + "\n") == MatchUsernamePrefix(p)
  {
    SpanBeforeNewline(p, 0, WordOrDash);
    var k := Span(p, 0, WordOrDash);
    assert (p + "\n")[..k] == p[..k];
  }

  lemma ResetConfirmBeforeNewline(p: string)
    requires NoFinalNewline(p)
    ensures MatchResetConfirm(p + "\n") == MatchResetConfirm(p)
  {
    if MatchResetConfirm(p).Some? {
      ResetConfirmSound(p);
      var c := MatchResetConfirm(p).value;
      var x := ConfirmPath(c["uidb36"], c["token"]);
      assert p == x + "";
      ResetConfirmComplete(c["uidb36"], c["token"], "");
      ResetConfirmComplete(c["uidb36"], c["token"], "\n");
    } else if MatchResetConfirm(p + "\n").Some? {
      ResetConfirmSound(p + "\n");
      var c := MatchResetConfirm(p + "\n").value;
      var x := ConfirmPath(c["uidb36"], c["token"]);
      assert (p + "\n")[|p|] == '\n';
      assert p + "\n" == x + "\n";
      assert p == x + "" by {
        assert p == (p + "\n")[..|p|] == (x + "\n")[..|x|] == x;
      }
      ResetConfirmComplete(c["uidb36"], c["token"], "");
    }
  }

  lemma PatternBeforeNewline(pat: Pattern, p: string)
    requires NewlineFree(pat) && NoFinalNewline(p)
    ensures MatchPattern(pat, p + "\n") == MatchPattern(pat, p)
  {
    match pat
    case Exact(lit) => ExactBeforeNewline(lit, p);
    case ResetConfirm => ResetConfirmBeforeNewline(p);
    case UsernamePrefix => UsernamePrefixBeforeNewline(p);
  }

  lemma {:induction false} FirstMatchBeforeNewline(routes: seq<Route>, p: string, from: nat)
    requires from <= |routes| && NoFinalNewline(p)
    requires forall j :: 0 <= j < |routes| ==> NewlineFree(routes[j].pattern)
    ensures FirstMatch(routes, p + "\n", from) == FirstMatch(routes, p, from)
    decreases |routes| - from
  {
    if from < |routes| {
      PatternBeforeNewline(routes[from].pattern, p);
      FirstMatchBeforeNewline(routes, p, from + 1);
    }
  }

  /**
   * Every pattern ends in `$` or has no end anchor, and `$` also matches
   * before one final newline: a path and the same path with one newline
   * added resolve alike.
   */
  lemma ResolveIgnoresFinalNewline(p: string)
    requires NoFinalNewline(p)
    ensures Resolve(UrlPatterns, p + "\n") == Resolve(UrlPatterns, p)
  {
    TableIsNewlineFree();
    FirstMatchBeforeNewline(UrlPatterns, p, 0);
  }

  // ---- Routes passed over -------------------------------------------------

  /** A route whose pattern does not match is passed over. */
  lemma Skip(routes: seq<Route>, path: string, from: nat)
    requires from < |routes| && MatchPattern(routes[from].pattern, path).None?
    ensures FirstMatch(routes, path, from) == FirstMatch(routes, path, from + 1)
  {
  }

  /** A path without '-' is no confirm path. */
  lemma ResetConfirmMisses(path: string)
    requires '-' !in path
    ensures MatchPattern(ResetConfirm, path).None?
  {
    if MatchResetConfirm(path).Some? {
      ResetConfirmNeedsDash(path);
    }
  }

  /**
   * A test on the path alone that a pattern cannot match it: the path is
   * neither the literal nor the literal and a newline; it holds no '-'; it
   * is empty or starts outside `[\w\-]`.
   */
  predicate Passes(p: Pattern, path: string) {
    match p
    case Exact(lit) => path != lit && (|path| != |lit| + 1 || path[|lit|] != '\n' || path[..|lit|] != lit)
    case ResetConfirm => '-' !in path
    case UsernamePrefix => |path| == 0 || !InClass(path[0], WordOrDash)
  }

  lemma PassesMisses(p: Pattern, path: string)
    requires Passes(p, path)
    ensures MatchPattern(p, path).None?
  {
    match p
    case Exact(lit) =>
    case ResetConfirm => ResetConfirmMisses(path);
    case UsernamePrefix =>
  }

  /** The first `n` routes all pass the path over. */
  predicate AllPass(routes: seq<Route>, path: string, n: nat)
    requires n <= |routes|
  {
    n == 0 || (Passes(routes[n - 1].pattern, path) && AllPass(routes, path, n - 1))
  }

  /** Routes that pass a path over do not take part in resolving it. */
  lemma {:induction false} PassedOver(routes: seq<Route>, path: string, n: nat)
    requires n <= |routes| && AllPass(routes, path, n)
    ensures FirstMatch(routes, path, 0) == FirstMatch(routes, path, n)
  {
    if n > 0 {
      PassedOver(routes, path, n - 1);
      PassesMisses(routes[n - 1].pattern, path);
      Skip(routes, path, n - 1);
    }
  }

  /** An exact route resolves its own literal once every route before it passes the literal over. */
  lemma ExactWins(routes: seq<Route>, path: string, i: nat)
    requires i < |routes| && routes[i].pattern == Exact(path) && AllPass(routes, path, i)
    ensures Resolve(routes, path) == Some(Resolution(i, routes[i].name, map[]))
  {
    PassedOver(routes, path, i);
  }

  /** The routes from `from` to `to` are exact routes whose literals start with another character than `c`. */
  predicate LiteralsStartOtherThan(routes: seq<Route>, c: char, from: nat, to: nat)
    requires from <= to <= |routes|
  {
    to == from
    || (&& routes[to - 1].pattern.Exact?
        && |routes[to - 1].pattern.literal| > 0
        && routes[to - 1].pattern.literal[0] != c
        && LiteralsStartOtherThan(routes, c, from, to - 1))
  }

  /** Exact routes whose literals start with another character than the path pass it over. */
  lemma {:induction false} FirstCharsDiffer(routes: seq<Route>, path: string, from: nat, to: nat)
    requires from <= to <= |routes| && |path| > 0 && LiteralsStartOtherThan(routes, path[0], from, to)
    ensures FirstMatch(routes, path, from) == FirstMatch(routes, path, to)
  {
    if from < to {
      FirstCharsDiffer(routes, path, from, to - 1);
      FirstCharMisses(routes[to - 1].pattern.literal, path);
      Skip(routes, path, to - 1);
    }
  }

  /** A route that matches once every route before it is passed over resolves the path. */
  lemma MatchAtWins(routes: seq<Route>, path: string, i: nat)
    requires i < |routes| && FirstMatch(routes, path, 0) == FirstMatch(routes, path, i)
    requires MatchPattern(routes[i].pattern, path).Some?
    ensures Resolve(routes, path) == Some(Resolution(i, routes[i].name, MatchPattern(routes[i].pattern, path).value))
  {
  }

  lemma FirstCharMisses(lit: string, path: string)
    requires |lit| > 0 && |path| > 0 && path[0] != lit[0]
    ensures MatchPattern(Exact(lit), path).None?
  {
  }

  // ---- The table ----------------------------------------------------------

  /** The patterns of the table, one by one. */
  lemma TablePatterns()
    ensures |UrlPatterns| == 13
    ensures UrlPatterns[0].pattern == Exact("")
    ensures UrlPatterns[1].pattern == Exact("login")
    ensures UrlPatterns[2].pattern == Exact("logout")
    ensures UrlPatterns[3].pattern == Exact("password/")
    ensures UrlPatterns[4].pattern == Exact("password/completo")
    ensures UrlPatterns[5].pattern == ResetConfirm
    ensures UrlPatterns[6].pattern == Exact("reset/completo/")
    ensures UrlPatterns[7].pattern == Exact("register")
    ensures UrlPatterns[8].pattern == Exact("cuenta")
    ensures UrlPatterns[9].pattern == Exact("personal")
    ensures UrlPatterns[10].pattern == Exact("diseno")
    ensures UrlPatterns[11].pattern == Exact("profile")
    ensures UrlPatterns[12].pattern == UsernamePrefix
  {
  }

  /** The empty path resolves to `users_index`. */
  lemma IndexRouteWins()
    ensures Resolve(UrlPatterns, "") == Some(Resolution(0, "users_index", map[]))
  {
    TablePatterns();
    ExactWins(UrlPatterns, "", 0);
  }

  /** `login` resolves to `users_login`. */
  lemma LoginRouteWins()
    ensures Resolve(UrlPatterns, "login") == Some(Resolution(1, "users_login", map[]))
  {
    TablePatterns();
    ExactWins(UrlPatterns, "login", 1);
  }

  /** `logout` resolves to `users_logout`. */
  lemma LogoutRouteWins()
    ensures Resolve(UrlPatterns, "logout") == Some(Resolution(2, "users_logout", map[]))
  {
    TablePatterns();
    ExactWins(UrlPatterns, "logout", 2);
  }

  /** `password/` resolves to `password_reset`. */
  lemma PasswordResetRouteWins()
    ensures Resolve(UrlPatterns, "password/") == Some(Resolution(3, "password_reset", map[]))
  {
    TablePatterns();
    ExactWins(UrlPatterns, "password/", 3);
  }

  /** `password/completo` resolves to `password_reset_done`. */
  lemma PasswordResetDoneRouteWins()
    ensures Resolve(UrlPatterns, "password/completo") == Some(Resolution(4, "password_reset_done", map[]))
  {
    TablePatterns();
    ExactWins(UrlPatterns, "password/completo", 4);
  }

  /** `reset/completo/` resolves to `password_reset_complete`. */
  lemma PasswordResetCompleteRouteWins()
    ensures Resolve(UrlPatterns, "reset/completo/") == Some(Resolution(6, "password_reset_complete", map[]))
  {
    TablePatterns();
    ExactWins(UrlPatterns, "reset/completo/", 6);
  }

  /** `register` resolves to `users_register`. */
  lemma RegisterRouteWins()
    ensures Resolve(UrlPatterns, "register") == Some(Resolution(7, "users_register", map[]))
  {
    TablePatterns();
    ExactWins(UrlPatterns, "register", 7);
  }

  /** `cuenta` resolves to `users_account`. */
  lemma AccountRouteWins()
    ensures Resolve(UrlPatterns, "cuenta") == Some(Resolution(8, "users_account", map[]))
  {
    TablePatterns();
    ExactWins(UrlPatterns, "cuenta", 8);
  }

  /** `personal` resolves to `users_personal`. */
  lemma PersonalRouteWins()
    ensures Resolve(UrlPatterns, "personal") == Some(Resolution(9, "users_personal", map[]))
  {
    TablePatterns();
    ExactWins(UrlPatterns, "personal", 9);
  }

  /** `diseno` resolves to `users_design`. */
  lemma DesignRouteWins()
    ensures Resolve(UrlPatterns, "diseno") == Some(Resolution(10, "users_design", map[]))
  {
    TablePatterns();
    ExactWins(UrlPatterns, "diseno", 10);
  }

  /** `profile` resolves to `users_profile`. */
  lemma ProfileRouteWins()
    ensures Resolve(UrlPatterns, "profile") == Some(Resolution(11, "users_profile", map[]))
  {
    TablePatterns();
    ExactWins(UrlPatterns, "profile", 11);
  }

  /** A path that an exact route resolves is that route's literal, possibly with one final newline. */
  lemma ExactRouteTakesOnlyItsPath(path: string)
    requires Resolve(UrlPatterns, path).Some?
    requires UrlPatterns[Resolve(UrlPatterns, path).value.index].pattern.Exact?
    ensures var lit := UrlPatterns[Resolve(UrlPatterns, path).value.index].pattern.literal;
            path == lit || path == lit + "\n"
  {
  }

  /** Every pattern after the index route needs a first character of `[\w\-]`. */
  predicate LeadsWithWord(p: Pattern) {
    match p
    case Exact(lit) => |lit| > 0 && InClass(lit[0], WordOrDash)
    case ResetConfirm => true
    case UsernamePrefix => true
  }

  lemma TableLeadsWithWord()
    ensures forall j :: 1 <= j < |UrlPatterns| ==> LeadsWithWord(UrlPatterns[j].pattern)
  {
  }

  lemma LeadingWordNeeded(p: Pattern, path: string)
    requires LeadsWithWord(p) && |path| > 0 && !InClass(path[0], WordOrDash)
    ensures MatchPattern(p, path).None?
  {
  }

  lemma {:induction false} NoLeadingWordNoMatch(routes: seq<Route>, path: string, from: nat)
    requires from <= |routes| && |path| > 0 && !InClass(path[0], WordOrDash)
    requires forall j :: from <= j < |routes| ==> LeadsWithWord(routes[j].pattern)
    ensures FirstMatch(routes, path, from).None?
    decreases |routes| - from
  {
    if from < |routes| {
      LeadingWordNeeded(routes[from].pattern, path);
      NoLeadingWordNoMatch(routes, path, from + 1);
    }
  }

  /**
   * A path resolves to no route exactly when it is not the index path and
   * does not start with a character of `[\w\-]`: the username route takes
   * every other path that no earlier route takes.
   */
  lemma UnresolvedPaths(path: string)
    ensures Resolve(UrlPatterns, path).None? <==> path != "" && path != "\n" && !InClass(path[0], WordOrDash)
  {
    if path != "" && path != "\n" && !InClass(path[0], WordOrDash) {
      TableLeadsWithWord();
      NoLeadingWordNoMatch(UrlPatterns, path, 1);
      assert MatchPattern(UrlPatterns[0].pattern, path).None?;
    } else if path == "" || path == "\n" {
      assert MatchPattern(UrlPatterns[0].pattern, path).Some?;
    } else {
      assert MatchPattern(UrlPatterns[12].pattern, path).Some?;
    }
  }

  /**
   * When the username route resolves a path, it captures the longest prefix
   * of `[\w\-]` characters, which is not empty, under `username`.
   */
  lemma UsernameRouteCapture(path: string)
    requires Resolve(UrlPatterns, path).Some? && Resolve(UrlPatterns, path).value.index == 12
    ensures var r := Resolve(UrlPatterns, path).value;
            && r.name == "users_profile" && r.captures.Keys == {"username"}
            && var u := r.captures["username"];
            && 1 <= |u| && u <= path && AllIn(u, WordOrDash)
            && (|u| == |path| || !InClass(path[|u|], WordOrDash))
  {
    assert UrlPatterns[12].pattern == UsernamePrefix;
  }

  /**
   * The link of a reset mail, reversed from a uid and a token of the reset
   * shape, resolves to the confirm view with both captured.
   */
  lemma ResetLinkResolves(uid: string, token: string)
    requires IsUid(uid) && IsToken(token)
    ensures Resolve(UrlPatterns, ConfirmPath(uid, token))
              == Some(Resolution(5, "password_reset_confirm", map["uidb36" := uid, "token" := token]))
  {
    RoutesBeforeConfirmStartOtherThanR();
    ConfirmRouteWins(UrlPatterns, uid, token);
  }

  /** In a table whose confirm route comes after routes a reset link passes over, the link resolves to it. */
  lemma ConfirmRouteWins(routes: seq<Route>, uid: string, token: string)
    requires IsUid(uid) && IsToken(token)
    requires 5 < |routes| && routes[0].pattern == Exact("") && routes[5].pattern == ResetConfirm
    requires LiteralsStartOtherThan(routes, 'r', 1, 5)
    ensures Resolve(routes, ConfirmPath(uid, token))
              == Some(Resolution(5, routes[5].name, map["uidb36" := uid, "token" := token]))
  {
    var path := ConfirmPath(uid, token);
    ConfirmPathMatches(uid, token);
    PassOverFirstChars(routes, path, 5);
    MatchAtWins(routes, path, 5);
  }

  /** A reversed reset link starts with 'r' and the confirm pattern captures its uid and token. */
  lemma ConfirmPathMatches(uid: string, token: string)
    requires IsUid(uid) && IsToken(token)
    ensures var path := ConfirmPath(uid, token);
            |path| > 1 && path[0] == 'r' && MatchResetConfirm(path) == Some(map["uidb36" := uid, "token" := token])
  {
    ResetConfirmComplete(uid, token, "");
    assert ConfirmPath(uid, token) + "" == ConfirmPath(uid, token);
  }

  /** A path of two characters or more passes over the index route and the exact routes after it whose first characters differ from its own. */
  lemma PassOverFirstChars(routes: seq<Route>, path: string, to: nat)
    requires 0 < to <= |routes| && routes[0].pattern == Exact("") && |path| > 1
    requires LiteralsStartOtherThan(routes, path[0], 1, to)
    ensures FirstMatch(routes, path, 0) == FirstMatch(routes, path, to)
  {
    FirstCharsDiffer(routes, path, 1, to);
    Skip(routes, path, 0);
  }

  /** The exact routes between the index route and the confirm route start with other letters than 'r'. */
  lemma RoutesBeforeConfirmStartOtherThanR()
    ensures LiteralsStartOtherThan(UrlPatterns, 'r', 1, 5)
  {
    assert LiteralsStartOtherThan(UrlPatterns, 'r', 1, 1);
    assert LiteralsStartOtherThan(UrlPatterns, 'r', 1, 2);
    assert LiteralsStartOtherThan(UrlPatterns, 'r', 1, 3);
    assert LiteralsStartOtherThan(UrlPatterns, 'r', 1, 4);
  }
}
