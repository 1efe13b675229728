/** The bearer-token middleware in front of the note routes: it rejects a
    request without a `Bearer ` authorization header, verifies the token,
    and runs the route with the token's user id.  Token verification and
    the route are parameters. */
module AuthMiddleware {
  import opened Wrappers
  import opened NoteTypes
  import Strings

  /** The response the guarded route ends with, as an opaque value.  A route
      that throws is answered by the framework's error handler before `next()`
      returns, so that answer is a response here as well. */
  type Response = string

  datatype AuthResult =
    | Unauthorized                               // 401 { error: 'Unauthorized' }
    | InvalidToken                               // 401 { error: 'Invalid token' }
    | Forwarded(userId: UserId, response: Response)

  /** The error text of the middleware's own 401 answers. */
  function ErrorText(r: AuthResult): string {
    match r
    case Unauthorized => "Unauthorized"
    case InvalidToken => "Invalid token"
    case Forwarded(_, _) => ""
  }

  const Scheme := "Bearer "

  /** The header carries the bearer scheme: present, non-empty, and starting
      with `Bearer `. */
  predicate IsBearer(header: Option<string>) {
    header.Some? && header.value != "" && Strings.StartsWith(header.value, Scheme)
  }

  /** The token the middleware checks: the second piece of the header when it
      is split at spaces. */
  function TokenOf(header: string): (t: string)
    requires Strings.StartsWith(header, Scheme)
    ensures var rest := header[|Scheme|..];
            t == rest[..Strings.IndexOf(rest, ' ')]
    ensures ' ' !in t
  {
    var rest := header[|Scheme|..];
    assert header == "Bearer" + [' '] + rest;
    Strings.SecondPiece("Bearer", ' ', rest);
    Strings.Split(header, ' ')[1]
  }

  /** `authMiddleware`, with `verify` returning `None` where `verifyToken`
      throws and `next` the route it guards. */
  function Authenticate(header: Option<string>, verify: string -> Option<UserId>, next: UserId -> Response): (r: AuthResult)
    // A missing, empty or non-Bearer header is refused before anything else.
    ensures !IsBearer(header) <==> r == Unauthorized
    // Otherwise the token is rejected iff it does not verify, and the route
    // runs with the verified user id, its response passed on unchanged.
    ensures IsBearer(header) ==>
              var token := TokenOf(header.value);
              && (r == InvalidToken <==> verify(token).None?)
              && (r.Forwarded? <==> verify(token).Some?)
              && (r.Forwarded? ==> r.userId == verify(token).value && r.response == next(r.userId))
  {
    if !IsBearer(header) then Unauthorized
    else
      var token := TokenOf(header.value);
      match verify(token)
      case None => InvalidToken
      case Some(userId) => Forwarded(userId, next(userId))
  }

  /** The token stops at the next space: "Bearer a b" checks "a" and
      "Bearer  a" checks the empty string. */
  lemma TokenExamples()
    ensures TokenOf("Bearer a b") == "a"
    ensures TokenOf("Bearer  a") == ""
  {
    var r1 := "a b";
    assert r1[0] == 'a' && r1[1] == ' ';
    assert Strings.IndexOf(r1, ' ') == 1;
    var r2 := " a";
    assert Strings.IndexOf(r2, ' ') == 0;
  }
}
