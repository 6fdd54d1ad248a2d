// verifyToken (src/middleware/auth.middleware.js): finds the token in the
// Authorization header, verifies it with an abstract JWT oracle and exposes
// the caller's id and role with their claim-name fallbacks.
module AuthMiddleware {
  import opened Js

  /** The claims of a decoded token that the middleware reads; a missing or falsy claim is None. */
  datatype Claims = Claims(id: Option<int>, userId: Option<int>, role: Option<string>, userRole: Option<string>)

  /** Either `next()` is called with the request fields set, or the request is answered. */
  datatype Outcome =
    | Next(user: Claims, userId: Option<int>, userRole: Option<string>)
    | Rejected(status: int, error: string)

  const TokenRequired := "Token requerido"
  const TokenInvalid := "Token inválido"
  const TokenExpired := "Token inválido o expirado"

  /** `authHeader.split(" ")[1]`, kept only when it exists and is not empty. */
  function HeaderToken(header: string): (t: Option<string>)
    ensures t.Some? <==> |Split(header, ' ')| >= 2 && Split(header, ' ')[1] != ""
    ensures t.Some? ==> t.value != "" && ' ' !in t.value && t.value == Split(header, ' ')[1]
  {
    var pieces := Split(header, ' ');
    if |pieces| >= 2 && pieces[1] != "" then Some(pieces[1]) else None
  }

  /**
   * verifyToken: 403 without a header, 403 without a token, 401 when the
   * oracle refuses the token, and otherwise `next()` with
   * userId = id || userId and role = role || userRole.
   */
  function VerifyToken(header: Option<string>, verify: string -> Option<Claims>): (r: Outcome)
    ensures !Truthy(header) ==> r == Rejected(403, TokenRequired)
    ensures Truthy(header) && HeaderToken(header.value).None? ==> r == Rejected(403, TokenInvalid)
    ensures r.Next? <==> Truthy(header) && HeaderToken(header.value).Some? && verify(HeaderToken(header.value).value).Some?
    ensures r == Rejected(401, TokenExpired) <==>
      Truthy(header) && HeaderToken(header.value).Some? && verify(HeaderToken(header.value).value).None?
    ensures r.Next? ==>
      && r.user == verify(HeaderToken(header.value).value).value
      && (TruthyNum(r.user.id) ==> r.userId == r.user.id)
      && (!TruthyNum(r.user.id) ==> r.userId == r.user.userId)
      && (Truthy(r.user.role) ==> r.userRole == r.user.role)
      && (!Truthy(r.user.role) ==> r.userRole == r.user.userRole)
  {
    if !Truthy(header) then Rejected(403, TokenRequired)
    else
      match HeaderToken(header.value)
      case None => Rejected(403, TokenInvalid)
      case Some(token) =>
        match verify(token)
        case None => Rejected(401, TokenExpired)
        case Some(claims) => Next(claims, OrNum(claims.id, claims.userId), Or(claims.role, claims.userRole))
  }

  /** The scheme word is never looked at: any space-free word, a space and a token yields that token. */
  lemma SchemeIgnored(scheme: string, token: string)
    requires ' ' !in scheme && ' ' !in token && token != ""
    ensures HeaderToken(scheme + " " + token) == Some(token)
  {
    SplitAtFirst(scheme, ' ', token);
    SplitNoSeparator(token, ' ');
    assert scheme + " " + token == scheme + [' '] + token;
  }

  /** Only the piece after the first space counts: "Bearer a b" yields "a". */
  lemma ExtraPiecesIgnored(scheme: string, token: string, rest: string)
    requires ' ' !in scheme && ' ' !in token && token != ""
    ensures HeaderToken(scheme + " " + token + " " + rest) == Some(token)
  {
    SplitAtFirst(scheme, ' ', token + " " + rest);
    SplitAtFirst(token, ' ', rest);
    assert scheme + " " + token + " " + rest == scheme + [' '] + (token + [' '] + rest);
  }

  /** A header without a space ("Bearer") has no token. */
  lemma SchemeAloneHasNoToken(scheme: string)
    requires ' ' !in scheme
    ensures HeaderToken(scheme) == None
  {
    SplitNoSeparator(scheme, ' ');
  }

  /** Two spaces after the scheme ("Bearer  x") leave an empty second piece, so no token. */
  lemma DoubleSpaceHasNoToken(scheme: string, rest: string)
    requires ' ' !in scheme
    ensures HeaderToken(scheme + "  " + rest) == None
  {
    SplitAtFirst(scheme, ' ', " " + rest);
    SplitAtFirst("", ' ', rest);
    assert scheme + "  " + rest == scheme + [' '] + (" " + rest);
    assert " " + rest == "" + [' '] + rest;
  }

  /** A well-formed "<word> <token>" header reaches the oracle, and its verdict alone decides. */
  lemma WellFormedHeaderReachesOracle(scheme: string, token: string, verify: string -> Option<Claims>)
    requires ' ' !in scheme && ' ' !in token && token != ""
    ensures var r := VerifyToken(Some(scheme + " " + token), verify);
      (r.Next? <==> verify(token).Some?) && (verify(token).None? ==> r == Rejected(401, TokenExpired))
  {
    SchemeIgnored(scheme, token);
  }
}
