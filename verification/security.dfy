/** The authorization rules of `SecurityConfiguration.securityFilterChain`:
    an ordered list of `antMatchers(...).permitAll()` rules, then
    `anyRequest().authenticated()`. The first rule with a matching pattern
    decides; no role is consulted. */
module Security {
  import opened Base

  /** An Ant pattern of the chain: a literal path, or a prefix followed by `/` and
      `**`, which matches the prefix itself and everything below it. */
  datatype Pattern = Exact(path: string) | Subtree(prefix: string)

  datatype Access = PermitAll | Authenticated

  datatype Rule = Rule(patterns: seq<Pattern>, access: Access)

  /** `Permit`: the request goes on to the controller; `Unauthorized`: it is
      handed to the authentication entry point. */
  datatype Decision = Permit | Unauthorized

  predicate IsPrefix(p: string, s: string) {
    |p| <= |s| && s[..|p|] == p
  }

  predicate Matches(pat: Pattern, path: string) {
    match pat
    case Exact(p) => path == p
    case Subtree(p) => path == p || IsPrefix(p + "/", path)
  }

  predicate AnyMatches(pats: seq<Pattern>, path: string) {
    exists p :: p in pats && Matches(p, path)
  }

  /** The `antMatchers` rules of the chain, in order. */
  const RULES: seq<Rule> := [
    Rule([Exact("/register"), Exact("/health"), Exact("/login"), Subtree("/v3/api-docs"), Subtree("/swagger-ui"),
          Exact("/swagger-ui.html"), Subtree("/actuator")], PermitAll),
    Rule([Subtree("/roles")], PermitAll),
    Rule([Subtree("/test")], PermitAll),
    Rule([Subtree("/vehicles")], PermitAll),
    Rule([Subtree("/locations")], PermitAll),
    Rule([Subtree("/rentals")], PermitAll),
    Rule([Subtree("/reviews")], PermitAll),
    Rule([Subtree("/payments")], PermitAll)
  ]

  /** The access of the first rule that matches the path, if any. */
  function FirstMatch(rules: seq<Rule>, path: string): (r: Option<Access>)
    ensures r.Some? <==> exists i :: 0 <= i < |rules| && AnyMatches(rules[i].patterns, path)
    ensures r.Some? ==> exists i :: 0 <= i < |rules| && r.value == rules[i].access
  {
    if rules == [] then None
    else if AnyMatches(rules[0].patterns, path) then Some(rules[0].access)
    else
      var rest := FirstMatch(rules[1..], path);
      assert forall i :: 1 <= i < |rules| ==> rules[i] == rules[1..][i - 1];
      rest
  }

  /** The decision of the filter chain for a request to `path`, with or
      without an authenticated principal; anything no rule matches needs one. */
  function Decide(path: string, authenticated: bool): Decision {
    var access := FirstMatch(RULES, path).GetOr(Authenticated);
    if access == PermitAll || authenticated then Permit else Unauthorized
  }

  /** The public paths, stated directly: the registration, health and login
      endpoints and the Swagger page, and the subtrees of the documentation,
      the actuator, and the role, test, vehicle, location, rental, review and
      payment endpoints. */
  const PUBLIC_PATHS: seq<string> := ["/register", "/health", "/login", "/swagger-ui.html"]
  const PUBLIC_TREES: seq<string> := ["/v3/api-docs", "/swagger-ui", "/actuator", "/roles", "/test", "/vehicles",
                                      "/locations", "/rentals", "/reviews", "/payments"]

  predicate Under(path: string, t: string) {
    path == t || IsPrefix(t + "/", path)
  }

  predicate IsPublic(path: string) {
    path in PUBLIC_PATHS || exists t :: t in PUBLIC_TREES && Under(path, t)
  }

  /** Every public path is matched by one of the rules. */
  lemma PublicMatched(path: string)
    requires IsPublic(path)
    ensures exists i :: 0 <= i < |RULES| && AnyMatches(RULES[i].patterns, path)
  {
    if path in PUBLIC_PATHS {
      var j :| 0 <= j < |PUBLIC_PATHS| && PUBLIC_PATHS[j] == path;
      assert RULES[0].patterns[[0, 1, 2, 5][j]] == Exact(path);
      assert Matches(Exact(path), path);
    } else {
      var t :| t in PUBLIC_TREES && Under(path, t);
      var j :| 0 <= j < |PUBLIC_TREES| && PUBLIC_TREES[j] == t;
      assert Matches(Subtree(t), path);
      if j < 3 {
        assert RULES[0].patterns[[3, 4, 6][j]] == Subtree(t);
      } else {
        assert RULES[j - 2].patterns[0] == Subtree(t);
      }
    }
  }

  /** Every path a rule matches is public. */
  lemma MatchedPublic(path: string, i: int)
    requires 0 <= i < |RULES| && AnyMatches(RULES[i].patterns, path)
    ensures IsPublic(path)
  {
    var p :| p in RULES[i].patterns && Matches(p, path);
    if p.Subtree? {
      assert p.prefix in PUBLIC_TREES && Under(path, p.prefix);
    }
  }

  /** A request is let through exactly when its path is public or it
      carries an authenticated principal. */
  lemma DecideExact(path: string, authenticated: bool)
    ensures Decide(path, authenticated) == Permit <==> IsPublic(path) || authenticated
  {
    assert forall i :: 0 <= i < |RULES| ==> RULES[i].access == PermitAll;
    if IsPublic(path) {
      PublicMatched(path);
    } else if FirstMatch(RULES, path).Some? {
      var i :| 0 <= i < |RULES| && AnyMatches(RULES[i].patterns, path);
      MatchedPublic(path, i);
    }
  }

  /** A path that differs from `t` at position `k` is not under `t`. */
  lemma NotUnder(path: string, t: string, k: int)
    requires 0 <= k < |t| && k < |path| && path[k] != t[k]
    ensures !Under(path, t)
  {
    if |t| + 1 <= |path| {
      assert path[..|t| + 1][k] == path[k] && (t + "/")[k] == t[k];
    }
  }

  /** The public paths start with neither "/u" nor "/p". */
  lemma PublicPathsLead()
    ensures forall s :: s in PUBLIC_PATHS ==> 1 < |s| && s[1] != 'u' && s[1] != 'p'
  {
  }

  /** No public subtree root starts with "/u". */
  lemma PublicTreesNotU()
    ensures forall t :: t in PUBLIC_TREES ==> 1 < |t| && t[1] != 'u'
  {
  }

  /** No public subtree root starts with "/pr". */
  lemma PublicTreesNotPr()
    ensures forall t :: t in PUBLIC_TREES ==> 2 < |t| && (t[1] != 'p' || t[2] != 'r')
  {
  }

  /** The `/users` subtree is protected: without a principal it is refused. */
  lemma UsersProtected(path: string)
    requires Under(path, "/users")
    ensures Decide(path, false) == Unauthorized
  {
    assert 1 < |path| && path[1] == 'u' by {
      if path != "/users" {
        assert path[1] == ("/users" + "/")[1];
      }
    }
    PublicPathsLead();
    PublicTreesNotU();
    forall t | t in PUBLIC_TREES
      ensures !Under(path, t)
    {
      NotUnder(path, t, 1);
    }
    assert path !in PUBLIC_PATHS;
    DecideExact(path, false);
  }

  /** So is the `/profile` subtree. */
  lemma ProfileProtected(path: string)
    requires Under(path, "/profile")
    ensures Decide(path, false) == Unauthorized
  {
    assert 2 < |path| && path[1] == 'p' && path[2] == 'r' by {
      if path != "/profile" {
        assert path[1] == ("/profile" + "/")[1] && path[2] == ("/profile" + "/")[2];
      }
    }
    PublicPathsLead();
    PublicTreesNotPr();
    forall t | t in PUBLIC_TREES
      ensures !Under(path, t)
    {
      if t[1] == 'p' {
        NotUnder(path, t, 2);
      } else {
        NotUnder(path, t, 1);
      }
    }
    assert path !in PUBLIC_PATHS;
    DecideExact(path, false);
  }
}
