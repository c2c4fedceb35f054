/** The two client contracts cut out of the API document: the administrator projection and the user
    projection of `inc/api/openapi.py`, and what they have in common. */
module OpenApiContracts {
  import opened OpenApiDocuments
  import opened OpenApiJson
  import opened OpenApiLaws
  import opened OpenApiProjection

  const ADMIN_PATH_PREFIXES := ["/api/v1/admin/", "/healthz", "/api/v1/health", "/oidc/", "/.well-known/"]

  const USER_PATHS := {
    "/.well-known/openid-configuration", "/api/v1/me", "/api/v1/membership/levels", "/api/v1/points/products"}

  const USER_PATH_PREFIXES := [
    "/api/v1/auth/", "/api/v1/me/", "/api/v1/posts", "/api/v1/pages", "/api/v1/works",
    "/api/v1/community/", "/api/v1/content/", "/api/v1/business/", "/oidc/"]

  predicate StartsWithAny(text: string, prefixes: seq<string>) {
    exists i :: 0 <= i < |prefixes| && prefixes[i] <= text
  }

  predicate Contains(text: string, part: string) {
    exists i :: 0 <= i <= |text| && part <= text[i..]
  }

  predicate IsAdminPath(path: string) {
    path == "/api/v1/admin" || StartsWithAny(path, ADMIN_PATH_PREFIXES)
  }

  predicate IsUserPath(path: string) {
    path in USER_PATHS || StartsWithAny(path, USER_PATH_PREFIXES)
  }

  const ADMIN_OPERATION: Selector := (path, operation) => IsAdminPath(path)

  const USER_OPERATION: Selector := (path, operation) =>
    IsUserPath(path) && !("/api/v1/admin/" <= path) && !Contains(path, "webhook")

  // ---------------------------------------------------------------- which operations each has

  lemma AdminPathsSpelled(path: string)
    ensures IsAdminPath(path) <==>
              || path == "/api/v1/admin" || "/api/v1/admin/" <= path || "/healthz" <= path
              || "/api/v1/health" <= path || "/oidc/" <= path || "/.well-known/" <= path
  {
    var p := ADMIN_PATH_PREFIXES;
    assert StartsWithAny(path, p) <==>
        p[0] <= path || p[1] <= path || p[2] <= path || p[3] <= path || p[4] <= path;
  }

  lemma UserPathsSpelled(path: string)
    ensures IsUserPath(path) <==>
              || path == "/.well-known/openid-configuration" || path == "/api/v1/me"
              || path == "/api/v1/membership/levels" || path == "/api/v1/points/products"
              || "/api/v1/auth/" <= path || "/api/v1/me/" <= path || "/api/v1/posts" <= path
              || "/api/v1/pages" <= path || "/api/v1/works" <= path || "/api/v1/community/" <= path
              || "/api/v1/content/" <= path || "/api/v1/business/" <= path || "/oidc/" <= path
  {
    var p := USER_PATH_PREFIXES;
    assert StartsWithAny(path, p) <==>
        p[0] <= path || p[1] <= path || p[2] <= path || p[3] <= path || p[4] <= path
        || p[5] <= path || p[6] <= path || p[7] <= path || p[8] <= path;
  }

  lemma ContainsMeans(text: string, part: string)
    ensures Contains(text, part) <==> exists before, after :: text == before + part + after
  {
    if i :| 0 <= i <= |text| && part <= text[i..] {
      assert text == text[..i] + part + text[i..][|part|..];
    }
    if before, after :| text == before + part + after {
      assert part <= text[|before|..] by {
        assert text[|before|..] == part + after;
      }
    }
  }

  /** The administrator contract has the source's operations on these paths and no others. */
  lemma AdminContractExactly(doc: Document, title: string, path: string, method': string)
    requires Projectable(doc, ADMIN_OPERATION) && IsMethod(method')
    ensures var out := Projection(doc, ADMIN_OPERATION, title).paths;
            && out.Some?
            && (path in out.value && method' in out.value[path] <==>
                && doc.paths.Some? && path in doc.paths.value && method' in doc.paths.value[path]
                && (|| path == "/api/v1/admin" || "/api/v1/admin/" <= path || "/healthz" <= path
                    || "/api/v1/health" <= path || "/oidc/" <= path || "/.well-known/" <= path))
  {
    AdminPathsSpelled(path);
    OperationExactly(doc, ADMIN_OPERATION, title, path, method');
  }

  lemma OperationExactly(doc: Document, selected: Selector, title: string, path: string, method': string)
    requires Projectable(doc, selected) && IsMethod(method')
    ensures var out := Projection(doc, selected, title).paths;
            && out.Some?
            && (path in out.value && method' in out.value[path] <==>
                && doc.paths.Some? && path in doc.paths.value && method' in doc.paths.value[path]
                && selected(path, doc.paths.value[path][method']))
  {
    PathsExactly(doc, selected, title, path, method');
  }

  lemma UserOperationSpelled(path: string, operation: Json)
    ensures USER_OPERATION(path, operation) <==>
              && (|| path == "/.well-known/openid-configuration" || path == "/api/v1/me"
                  || path == "/api/v1/membership/levels" || path == "/api/v1/points/products"
                  || "/api/v1/auth/" <= path || "/api/v1/me/" <= path || "/api/v1/posts" <= path
                  || "/api/v1/pages" <= path || "/api/v1/works" <= path || "/api/v1/community/" <= path
                  || "/api/v1/content/" <= path || "/api/v1/business/" <= path || "/oidc/" <= path)
              && !("/api/v1/admin/" <= path)
              && !exists before, after :: path == before + "webhook" + after
  {
    UserPathsSpelled(path);
    ContainsMeans(path, "webhook");
  }

  /** The user contract has the source's operations on these paths, less the administrator's and every
      webhook, and no others. */
  lemma UserContractExactly(doc: Document, title: string, path: string, method': string)
    requires Projectable(doc, USER_OPERATION) && IsMethod(method')
    ensures var out := Projection(doc, USER_OPERATION, title).paths;
            && out.Some?
            && (path in out.value && method' in out.value[path] <==>
                && doc.paths.Some? && path in doc.paths.value && method' in doc.paths.value[path]
                && (|| path == "/.well-known/openid-configuration" || path == "/api/v1/me"
                    || path == "/api/v1/membership/levels" || path == "/api/v1/points/products"
                    || "/api/v1/auth/" <= path || "/api/v1/me/" <= path || "/api/v1/posts" <= path
                    || "/api/v1/pages" <= path || "/api/v1/works" <= path || "/api/v1/community/" <= path
                    || "/api/v1/content/" <= path || "/api/v1/business/" <= path || "/oidc/" <= path)
                && !("/api/v1/admin/" <= path)
                && !exists before, after :: path == before + "webhook" + after)
  {
    OperationExactly(doc, USER_OPERATION, title, path, method');
    if doc.paths.Some? && path in doc.paths.value && method' in doc.paths.value[path] {
      UserOperationSpelled(path, doc.paths.value[path][method']);
    }
  }

  // ---------------------------------------------------------------- what they share

  const DISCOVERY := "/.well-known/openid-configuration"

  /** Where an administrator path can lie, told by its second and ninth character. */
  lemma AdminPathsLie(path: string)
    requires IsAdminPath(path)
    ensures |path| > 5
    ensures "/oidc/" <= path || path[1] == '.' || path[1] == 'h'
            || (|path| > 9 && path[1] == 'a' && (path[8] == 'h' || (path[8] == 'a' && path[9] == 'd')))
  {
    if path != "/api/v1/admin" {
      var i :| 0 <= i < |ADMIN_PATH_PREFIXES| && ADMIN_PATH_PREFIXES[i] <= path;
    }
  }

  lemma UserPathsLie(path: string)
    requires IsUserPath(path)
    ensures |path| > 5
    ensures "/oidc/" <= path || path == DISCOVERY
            || (|path| > 9 && path[1] == 'a' && path[8] != 'h' && (path[8] == 'a' ==> path[9] == 'u'))
  {
    if path !in USER_PATHS {
      var i :| 0 <= i < |USER_PATH_PREFIXES| && USER_PATH_PREFIXES[i] <= path;
    }
  }

  lemma OidcIsShared(path: string)
    requires path == DISCOVERY || "/oidc/" <= path
    ensures IsAdminPath(path) && IsUserPath(path) && !("/api/v1/admin/" <= path)
  {
    if "/oidc/" <= path {
      assert path[1] == 'o';
      assert ADMIN_PATH_PREFIXES[3] <= path && USER_PATH_PREFIXES[8] <= path;
    } else {
      assert ADMIN_PATH_PREFIXES[4] <= path;
    }
  }

  lemma SharedPaths(path: string)
    ensures IsAdminPath(path) && IsUserPath(path) && !("/api/v1/admin/" <= path) <==>
              path == DISCOVERY || "/oidc/" <= path
  {
    if IsAdminPath(path) && IsUserPath(path) {
      AdminPathsLie(path);
      UserPathsLie(path);
    }
    if path == DISCOVERY || "/oidc/" <= path {
      OidcIsShared(path);
    }
  }

  /** Discovery and everything under `/oidc/`, less any webhook. */
  predicate IsOidcSurface(path: string) {
    !Contains(path, "webhook") && (path == DISCOVERY || "/oidc/" <= path)
  }

  /** The two client contracts share exactly the OIDC surface. */
  lemma SharedOperations(path: string, operation: Json)
    ensures ADMIN_OPERATION(path, operation) && USER_OPERATION(path, operation) <==> IsOidcSurface(path)
  {
    SharedPaths(path);
  }

  /** Cut out of the administrator contract, the user contract is that surface and nothing else. */
  lemma ContractsShareOidc(doc: Document, title: string, title': string, path: string, method': string)
    requires Projectable(doc, ADMIN_OPERATION) && method' in HTTP_METHODS
    ensures Projectable(Projection(doc, ADMIN_OPERATION, title), USER_OPERATION)
    ensures var out := SourcePaths(Projection(Projection(doc, ADMIN_OPERATION, title), USER_OPERATION, title'));
            path in out && method' in out[path] <==>
              path in SourcePaths(doc) && method' in SourcePaths(doc)[path] && IsOidcSurface(path)
  {
    OperationsOfBoth(doc, ADMIN_OPERATION, USER_OPERATION, title, title', path, method');
    if path in SourcePaths(doc) && method' in SourcePaths(doc)[path] {
      SharedOperations(path, SourcePaths(doc)[path][method']);
    }
  }

  lemma OperationsOfBoth(doc: Document, first: Selector, second: Selector, title: string, title': string,
                         path: string, method': string)
    requires Projectable(doc, first) && method' in HTTP_METHODS
    ensures Projectable(Projection(doc, first, title), second)
    ensures var source, out := SourcePaths(doc), SourcePaths(Projection(Projection(doc, first, title), second, title'));
            path in out && method' in out[path] <==>
              && path in source && method' in source[path]
              && first(path, source[path][method']) && second(path, source[path][method'])
  {
    ProjectionsCompose(doc, first, second, title, title');
    SelectedOperationsExactly(doc, Both(first, second), title', path, method');
  }
}
