/** The authentication gate `authenticateToken` and the token helper
    `generateToken` of src/middleware/authMiddleware.js.

    jsonwebtoken is not modelled: `jwt.sign` is a `Signer` and `jwt.verify` a
    `Verifier`, both supplied by the caller. Signing stamps the token with the
    instant it is issued (its `iat`), a parameter, so two signings of one claim
    at different instants may give different tokens. A verifier answers for the
    present instant, so an expired token is one for which it reports
    `TokenExpiredError`.
    The process-wide `JWT_SECRET` is a parameter. */
module AuthMiddleware {
  import opened Js

  /** The identity a token carries: the payload `{userId, username}`. */
  datatype Claim = Claim(userId: nat, username: string)

  /** What `jwt.verify(token, secret)` does: return the decoded payload, or throw
      an error whose `name` is given. */
  datatype VerifyOutcome = Verified(claim: Claim) | Failed(name: string)

  type Signer = (Claim, string, string, int) -> string   // payload, secret, expiresIn, issued-at second
  type Verifier = (string, string) -> VerifyOutcome      // token, secret

  const ExpiredErrorName := "TokenExpiredError"
  const InvalidErrorName := "JsonWebTokenError"
  const DefaultExpiry := "1h"

  const MsgTokenRequired := "Access token required"
  const MsgConfiguration := "Server configuration error"
  const MsgExpired := "Token has expired"
  const MsgInvalid := "Invalid token"
  const MsgVerificationFailed := "Token verification failed"

  /** `JWT_SECRET` is usable only when set and truthy: an empty string counts as unset. */
  predicate Configured(secret: Option<string>) {
    secret.Some? && secret.value != ""
  }

  // ---------------------------------------------------------------------------
  // `authHeader.split(" ")`

  /** JavaScript's `s.split(sep)` for a one-character separator. */
  function Split(s: string, sep: char): (parts: seq<string>)
    ensures |parts| >= 1
    ensures forall i :: 0 <= i < |parts| ==> sep !in parts[i]
  {
    if s == [] then [[]]
    else
      var rest := Split(s[1..], sep);
      if s[0] == sep then [[]] + rest
      else [[s[0]] + rest[0]] + rest[1..]
  }

  /** `parts.join(sep)`, the inverse of `Split`. */
  function Join(parts: seq<string>, sep: char): string {
    if |parts| == 0 then []
    else if |parts| == 1 then parts[0]
    else parts[0] + [sep] + Join(parts[1..], sep)
  }

  lemma {:induction false} JoinSplit(s: string, sep: char)
    ensures Join(Split(s, sep), sep) == s
  {
    if s != [] {
      var rest := Split(s[1..], sep);
      JoinSplit(s[1..], sep);
      if s[0] == sep {
        assert Split(s, sep) == [[]] + rest;
        assert Join([[]] + rest, sep) == [] + [sep] + Join(rest, sep);
      } else {
        var parts := Split(s, sep);
        assert parts == [[s[0]] + rest[0]] + rest[1..];
        if |rest| == 1 {
          assert Join(parts, sep) == [s[0]] + rest[0];
        } else {
          assert parts[1..] == rest[1..];
          assert Join(parts, sep) == [s[0]] + rest[0] + [sep] + Join(rest[1..], sep);
          assert Join(rest, sep) == rest[0] + [sep] + Join(rest[1..], sep);
        }
      }
    }
  }

  lemma {:induction false} SplitJoin(parts: seq<string>, sep: char)
    requires |parts| >= 1
    requires forall i :: 0 <= i < |parts| ==> sep !in parts[i]
    ensures Split(Join(parts, sep), sep) == parts
  {
    if |parts| == 1 {
      SplitWord(parts[0], [], sep);
      assert parts[0] + [] == parts[0];
      assert parts == [parts[0]];
    } else {
      SplitJoin(parts[1..], sep);
      SplitWord(parts[0], [sep] + Join(parts[1..], sep), sep);
      assert parts[0] + [sep] + Join(parts[1..], sep) == parts[0] + ([sep] + Join(parts[1..], sep));
      assert ([sep] + Join(parts[1..], sep))[1..] == Join(parts[1..], sep);
    }
  }

  /** Splitting a separator-free word followed by `rest`: the word extends the
      first field of `rest`. */
  lemma {:induction false} SplitWord(w: string, rest: string, sep: char)
    requires sep !in w
    ensures rest == [] ==> Split(w + rest, sep) == [w]
    ensures rest != [] && rest[0] == sep ==> Split(w + rest, sep) == [w] + Split(rest[1..], sep)
  {
    if w == [] {
      assert w + rest == rest;
    } else {
      SplitWord(w[1..], rest, sep);
      assert (w + rest)[1..] == w[1..] + rest;
      assert [w[0]] + w[1..] == w;
    }
  }

  // ---------------------------------------------------------------------------
  // The gate

  /** The second space-separated field of the header, kept only when truthy: a missing
      header, an empty header, a header without a space and an empty second field
      all give no token. */
  function ExtractToken(header: Option<string>): (r: Option<string>)
    ensures r.Some? ==> header.Some? && r.value != [] && ' ' !in r.value
  {
    match header
    case None => None
    case Some(h) =>
      var parts := Split(h, ' ');
      if |parts| >= 2 && parts[1] != [] then Some(parts[1]) else None
  }

  /** The decision `authenticateToken` reaches: continue with the decoded claim
      attached as `req.user`, or answer with a status and an `error` message. */
  datatype GateResult = Continue(user: Claim) | Reject(status: nat, error: string)

  /** The catch block: the error's `name` chooses the answer. */
  function Classify(name: string): (r: GateResult)
    ensures r.Reject? && r.status in {401, 403, 500}
    ensures r.status == 401 <==> name == ExpiredErrorName
  {
    if name == ExpiredErrorName then Reject(401, MsgExpired)
    else if name == InvalidErrorName then Reject(403, MsgInvalid)
    else Reject(500, MsgVerificationFailed)
  }

  /** `authenticateToken`'s decision: the token check, then the secret check, then
      the verifier's verdict. */
  function Authenticate(header: Option<string>, secret: Option<string>, verify: Verifier): (r: GateResult)
    ensures r.Continue? ==> ExtractToken(header).Some? && Configured(secret)
    ensures r.Reject? ==> r.status in {401, 403, 500}
  {
    match ExtractToken(header)
    case None => Reject(401, MsgTokenRequired)
    case Some(token) =>
      if !Configured(secret) then Reject(500, MsgConfiguration)
      else
        match verify(token, secret.value)
        case Verified(claim) => Continue(claim)
        case Failed(name) => Classify(name)
  }

  /** A header `<scheme> <token>` yields the token, whatever the scheme word is:
      it is not compared with "Bearer". Anything after a further space is ignored. */
  lemma SecondFieldIsToken(scheme: string, token: string, tail: string)
    requires ' ' !in scheme && ' ' !in token && token != []
    requires tail == [] || tail[0] == ' '
    ensures ExtractToken(Some(scheme + " " + token + tail)) == Some(token)
  {
    var h := scheme + " " + token + tail;
    SplitWord(scheme, " " + token + tail, ' ');
    assert h == scheme + (" " + token + tail);
    assert (" " + token + tail)[1..] == token + tail;
    SplitWord(token, tail, ' ');
  }

  /** Missing header, a bare token with no space and an empty second field
      (`"Bearer "`, or two spaces after the scheme) are all "no token". */
  lemma NoTokenCases(scheme: string, rest: string)
    requires ' ' !in scheme
    ensures ExtractToken(None) == None
    ensures ExtractToken(Some(scheme)) == None
    ensures ExtractToken(Some(scheme + " ")) == None
    ensures ExtractToken(Some(scheme + "  " + rest)) == None
  {
    SplitWord(scheme, [], ' ');
    assert scheme + [] == scheme;
    SplitWord(scheme, " ", ' ');
    assert Split([], ' ') == [[]];
    SplitWord(scheme, "  " + rest, ' ');
    assert (scheme + "  " + rest) == scheme + ("  " + rest);
    assert ("  " + rest)[1..] == " " + rest;
    assert Split(" " + rest, ' ')[0] == [];
  }

  /** An extracted token is a non-empty, space-free field of the header. */
  lemma ExtractedTokenShape(h: string)
    requires ExtractToken(Some(h)).Some?
    ensures var t := ExtractToken(Some(h)).value;
      t != [] && ' ' !in t && ' ' in h
  {
    var parts := Split(h, ' ');
    JoinSplit(h, ' ');
    assert h == parts[0] + [' '] + Join(parts[1..], ' ');
    assert h[|parts[0]|] == ' ';
  }

  /** The gate lets a request through exactly when a token was extracted, the
      secret is set and the verifier decoded the claim, and then it attaches that
      claim. */
  lemma ContinueIff(header: Option<string>, secret: Option<string>, verify: Verifier, c: Claim)
    ensures Authenticate(header, secret, verify) == Continue(c) <==>
      ExtractToken(header).Some? && Configured(secret) &&
      verify(ExtractToken(header).value, secret.value) == Verified(c)
  {
  }

  /** No token means 401 "Access token required", whether or not the secret is set
      and whatever the verifier would say: the token check comes first. */
  lemma MissingTokenFirst(header: Option<string>, secret: Option<string>, verify: Verifier)
    requires ExtractToken(header).None?
    ensures Authenticate(header, secret, verify) == Reject(401, MsgTokenRequired)
  {
  }

  /** With a token but no usable secret the answer is 500, before any verification. */
  lemma SecretCheckedBeforeVerify(header: Option<string>, secret: Option<string>, verify: Verifier, other: Verifier)
    requires ExtractToken(header).Some? && !Configured(secret)
    ensures Authenticate(header, secret, verify) == Reject(500, MsgConfiguration)
    ensures Authenticate(header, secret, verify) == Authenticate(header, secret, other)
  {
  }

  /** The failures of `jwt.verify`, by error name. */
  lemma FailureKinds(header: Option<string>, secret: Option<string>, verify: Verifier, name: string)
    requires ExtractToken(header).Some? && Configured(secret)
    requires verify(ExtractToken(header).value, secret.value) == Failed(name)
    ensures name == ExpiredErrorName ==> Authenticate(header, secret, verify) == Reject(401, MsgExpired)
    ensures name == InvalidErrorName ==> Authenticate(header, secret, verify) == Reject(403, MsgInvalid)
    ensures name != ExpiredErrorName && name != InvalidErrorName ==>
      Authenticate(header, secret, verify) == Reject(500, MsgVerificationFailed)
  {
  }

  /** Every rejection is one of the five fixed answers. */
  lemma RejectionTaxonomy(header: Option<string>, secret: Option<string>, verify: Verifier)
    ensures var r := Authenticate(header, secret, verify);
      r.Reject? ==>
        (r.status, r.error) in {(401, MsgTokenRequired), (500, MsgConfiguration),
                                (401, MsgExpired), (403, MsgInvalid), (500, MsgVerificationFailed)}
  {
  }

  /** The scheme word has no influence on the decision. */
  lemma SchemeIgnored(scheme: string, token: string, secret: Option<string>, verify: Verifier)
    requires ' ' !in scheme && ' ' !in token && token != []
    ensures Authenticate(Some(scheme + " " + token), secret, verify) ==
            Authenticate(Some("Bearer " + token), secret, verify)
  {
    SecondFieldIsToken(scheme, token, []);
    SecondFieldIsToken("Bearer", token, []);
    assert scheme + " " + token + [] == scheme + " " + token;
    assert "Bearer" + " " + token + [] == "Bearer " + token;
  }

  // ---------------------------------------------------------------------------
  // Issuing tokens

  /** `generateToken(payload, expiresIn = "1h")`, called at instant `issuedAt`:
      throws when the secret is unset, otherwise signs the payload. */
  function GenerateToken(secret: Option<string>, sign: Signer, payload: Claim, issuedAt: int,
                         expiresIn: string := DefaultExpiry): (r: Result<string, string>)
    ensures r.Err? <==> !Configured(secret)
  {
    if !Configured(secret) then Err("JWT_SECRET is not configured")
    else Ok(sign(payload, secret.value, expiresIn, issuedAt))
  }

  lemma GenerateTokenOutcome(secret: Option<string>, sign: Signer, payload: Claim, issuedAt: int)
    ensures GenerateToken(secret, sign, payload, issuedAt).Err? <==> !Configured(secret)
    ensures Configured(secret) ==>
      GenerateToken(secret, sign, payload, issuedAt) == Ok(sign(payload, secret.value, "1h", issuedAt))
  {
  }

  /** The assumed agreement of jsonwebtoken's two halves for tokens issued at
      `issuedAt` and checked while still within their `expiresIn` window: every
      such token is a non-empty string without spaces (a compact JWT), and
      verifying it with the same secret gives the payload back. */
  ghost predicate SignVerifyAgree(sign: Signer, verify: Verifier, secret: string, expiresIn: string, issuedAt: int) {
    forall c: Claim ::
      var t := sign(c, secret, expiresIn, issuedAt);
      t != [] && ' ' !in t && verify(t, secret) == Verified(c)
  }

  /** A token from `generateToken`, presented as `Bearer <token>` within its
      validity window, passes the gate with its claim attached. */
  lemma IssuedTokenAccepted(secret: Option<string>, sign: Signer, verify: Verifier, c: Claim, issuedAt: int)
    requires Configured(secret) && SignVerifyAgree(sign, verify, secret.value, DefaultExpiry, issuedAt)
    ensures GenerateToken(secret, sign, c, issuedAt).Ok?
    ensures Authenticate(Some("Bearer " + GenerateToken(secret, sign, c, issuedAt).value), secret, verify) == Continue(c)
  {
    var t := sign(c, secret.value, DefaultExpiry, issuedAt);
    SecondFieldIsToken("Bearer", t, []);
    assert "Bearer" + " " + t + [] == "Bearer " + t;
  }

  // ---------------------------------------------------------------------------
  // The middleware's effects

  /** The response the gate writes: a status and the body `{ error }`. */
  datatype ErrorReply = ErrorReply(status: nat, error: string)

  /** One request passing through the middleware: the `Authorization` header it
      carries, `req.user`, the responses written so far and the number of times
      `next` was called. */
  class Exchange {
    const authorization: Option<string>
    var user: Option<Claim>
    var replies: seq<ErrorReply>
    var nextCalls: nat

    constructor (authorization: Option<string>)
      ensures this.authorization == authorization
      ensures user == None && replies == [] && nextCalls == 0
    {
      this.authorization := authorization;
      user := None;
      replies := [];
      nextCalls := 0;
    }
  }

  /** `authenticateToken(req, res, next)`: either attaches the claim and calls
      `next`, or writes one response; never both, never neither. */
  method AuthenticateToken(ex: Exchange, secret: Option<string>, verify: Verifier)
    modifies ex
    ensures |ex.replies| + ex.nextCalls == |old(ex.replies)| + old(ex.nextCalls) + 1
    ensures match Authenticate(ex.authorization, secret, verify)
      case Continue(c) =>
        ex.user == Some(c) && ex.nextCalls == old(ex.nextCalls) + 1 && ex.replies == old(ex.replies)
      case Reject(status, error) =>
        ex.user == old(ex.user) && ex.nextCalls == old(ex.nextCalls) &&
        ex.replies == old(ex.replies) + [ErrorReply(status, error)]
  {
    var token := ExtractToken(ex.authorization);
    if token.None? {
      ex.replies := ex.replies + [ErrorReply(401, MsgTokenRequired)];
      return;
    }
    if !Configured(secret) {
      ex.replies := ex.replies + [ErrorReply(500, MsgConfiguration)];
      return;
    }
    match verify(token.value, secret.value)
    case Verified(decoded) =>
      ex.user := Some(decoded);
      ex.nextCalls := ex.nextCalls + 1;
    case Failed(name) =>
      if name == ExpiredErrorName {
        ex.replies := ex.replies + [ErrorReply(401, MsgExpired)];
        return;
      }
      if name == InvalidErrorName {
        ex.replies := ex.replies + [ErrorReply(403, MsgInvalid)];
        return;
      }
      ex.replies := ex.replies + [ErrorReply(500, MsgVerificationFailed)];
  }
}
