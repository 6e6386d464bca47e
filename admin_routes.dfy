/**
 * The admin routes: the `isAdmin` middleware that guards them, and the
 * post deletion behind it. `verify` stands for `jwt.verify` with the
 * server's secret: it yields the decoded id, or the message of the error
 * it throws.
 */
module AdminRoutes {
  import opened Wrappers
  import opened Store

  const NoToken := "No token, authorization denied"
  const ServerError := "Server error"
  const UserNotFound := "User not found"
  const AccessDenied := "Access denied. Admin rights required."
  const BlogNotFound := "Blog not found"
  const BlogDeleted := "Blog deleted successfully"

  /** The middleware either answers the request itself or lets it through with the loaded user. */
  datatype Gate = Deny(status: nat, body: Body) | Pass(user: User)

  /** `!token`: a missing cookie and an empty one both count as no token. */
  predicate HasToken(token: Option<string>) {
    token.Some? && token.value != ""
  }

  /**
   * The `isAdmin` ladder: token present, token verifies, user found, user
   * is an admin. The first check that fails decides the reply; a verify
   * error is caught by the surrounding `try` and becomes a 500.
   */
  function AdminGate(token: Option<string>, verify: string -> Verdict, users: map<UserId, User>): (r: Gate)
    ensures !HasToken(token) ==> r == Deny(401, Message(NoToken))
    ensures HasToken(token) && verify(token.value).Invalid? ==>
              r == Deny(500, ErrorMessage(ServerError, verify(token.value).message))
    ensures HasToken(token) && verify(token.value).Verified? && verify(token.value).id !in users ==>
              r == Deny(401, Message(UserNotFound))
    ensures HasToken(token) && verify(token.value).Verified? && verify(token.value).id in users
              && !users[verify(token.value).id].isAdmin ==>
              r == Deny(403, Message(AccessDenied))
    ensures r.Pass? <==>
              HasToken(token) && verify(token.value).Verified? && verify(token.value).id in users
              && users[verify(token.value).id].isAdmin
    ensures r.Pass? ==> r.user == users[verify(token.value).id] && r.user.isAdmin
  {
    if !HasToken(token) then Deny(401, Message(NoToken))
    else
      match verify(token.value)
      case Invalid(message) => Deny(500, ErrorMessage(ServerError, message))
      case Verified(id) =>
        if id !in users then Deny(401, Message(UserNotFound))
        else if !users[id].isAdmin then Deny(403, Message(AccessDenied))
        else Pass(users[id])
  }

  /**
   * Each status names one failed check: 401 is a missing token or a missing
   * user, 403 an existing user without the admin flag, 500 a token that
   * does not verify. Every refusal carries a `message`.
   */
  lemma GateStatusTellsCause(token: Option<string>, verify: string -> Verdict, users: map<UserId, User>)
    ensures var r := AdminGate(token, verify, users);
            && (r.Deny? ==> r.status in {401, 403, 500} && (r.body.Message? || r.body.ErrorMessage?))
            && (r.Deny? && r.status == 401 ==>
                  !HasToken(token) || (verify(token.value).Verified? && verify(token.value).id !in users))
            && (r.Deny? && r.status == 403 ==>
                  HasToken(token) && verify(token.value).Verified? && verify(token.value).id in users
                  && !users[verify(token.value).id].isAdmin)
            && (r.Deny? && r.status == 500 ==> HasToken(token) && verify(token.value).Invalid?)
  {
    var r := AdminGate(token, verify, users);
    if HasToken(token) {
      match verify(token.value)
      case Invalid(_) =>
        assert r.status == 500;
      case Verified(id) =>
        assert r.Deny? ==> r.status == 401 || r.status == 403;
    } else {
      assert r.status == 401;
    }
  }

  /** A request without a token is refused whatever `verify` or the users collection would say. */
  lemma NoTokenNeedsNoLookup(verify: string -> Verdict, users: map<UserId, User>, verify': string -> Verdict, users': map<UserId, User>)
    ensures AdminGate(None, verify, users) == AdminGate(Some(""), verify', users')
  {
  }

  /** The request object; `user` is `req.user`, which only the middleware sets. */
  class Request {
    const token: Option<string>
    var user: Option<User>

    constructor (token: Option<string>)
      ensures this.token == token && user == None
    {
      this.token := token;
      user := None;
    }
  }

  /**
   * The middleware: on a refusal it replies and never calls `next`; when
   * every check passes it sets `req.user` and calls `next` exactly once.
   */
  method IsAdmin(req: Request, verify: string -> Verdict, db: Database) returns (reply: Option<Reply>, nextCalls: nat)
    modifies req
    ensures var g := AdminGate(req.token, verify, db.users);
            && (g.Deny? ==> reply == Some(Json(g.status, g.body)) && nextCalls == 0 && req.user == old(req.user))
            && (g.Pass? ==> reply == None && nextCalls == 1 && req.user == Some(g.user))
  {
    match AdminGate(req.token, verify, db.users)
    case Deny(status, body) =>
      reply, nextCalls := Some(Json(status, body)), 0;
    case Pass(user) =>
      req.user := Some(user);
      reply, nextCalls := None, 1;
  }

  /** The delete handler: 404 when no post has the id, otherwise the post is removed. */
  method DeleteBlog(db: Database, id: PostId) returns (reply: Reply)
    requires db.Valid()
    modifies db`blogs
    ensures db.Valid()
    ensures id !in old(db.blogs) ==> reply == Json(404, Message(BlogNotFound)) && db.blogs == old(db.blogs)
    ensures id in old(db.blogs) ==> reply == Json(200, Message(BlogDeleted)) && db.blogs == old(db.blogs) - {id}
  {
    var deletedBlog := db.FindByIdAndDelete(id);
    if deletedBlog.None? {
      return Json(404, Message(BlogNotFound));
    }
    reply := Json(200, Message(BlogDeleted));
  }

  /**
   * `DELETE /admin/blogs/:id`: the middleware, then the handler when it
   * passes. Only an admin's request can remove a post.
   */
  method DeleteRoute(req: Request, verify: string -> Verdict, db: Database, id: PostId) returns (reply: Reply)
    requires db.Valid()
    modifies req, db`blogs
    ensures db.Valid()
    ensures var g := AdminGate(req.token, verify, db.users);
            && (g.Deny? ==> reply == Json(g.status, g.body) && db.blogs == old(db.blogs))
            && (g.Pass? ==> reply == (if id in old(db.blogs) then Json(200, Message(BlogDeleted))
                                      else Json(404, Message(BlogNotFound)))
                            && db.blogs == old(db.blogs) - {id})
    ensures db.blogs != old(db.blogs) ==> id in old(db.blogs) && AdminGate(req.token, verify, db.users).Pass?
  {
    var gateReply, nextCalls := IsAdmin(req, verify, db);
    if nextCalls == 0 {
      return gateReply.value;
    }
    reply := DeleteBlog(db, id);
  }
}
