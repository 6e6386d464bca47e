/**
 * The records the routes read and write, the document store that holds
 * them, and the replies a route can end in.
 */
module Store {
  import opened Wrappers

  /** Document ids. The store compares them by value only. */
  type UserId = nat
  type PostId = nat

  /** A registered account; `isAdmin` grants the admin routes and editing any post. */
  datatype User = User(username: string, isAdmin: bool)

  /** A blog post record: `cover` is the hosted URL of its cover image, `author` a user id. */
  datatype Post = Post(title: string, summary: string, content: string, cover: string, author: UserId)

  /** The JSON bodies the routes in this model send. */
  datatype Body =
    | Message(message: string)                    // { message }
    | ErrorMessage(message: string, error: string) // { message, error }
    | Text(text: string)                          // a bare JSON string
    | Document(id: PostId, post: Post)            // a post as the store returns it

  /**
   * How a request ends:
   * - `Json`: the handler answers with `res.status(status).json(body)`;
   *   `status` is 200 when the handler sets none.
   * - `ErrorPage`: an error passed to `next(err)` (multer's errors) reaches
   *   the framework's default handler, which answers 500; `message` is the
   *   error's message, not the page the handler renders.
   * - `Unanswered`: an exception escapes an `async` handler or a callback.
   *   Nothing catches it and no reply is sent.
   */
  datatype Reply = Json(status: nat, body: Body) | ErrorPage(message: string) | Unanswered

  /** What `jwt.verify` yields for a token: the decoded user id, or the error thrown. */
  datatype Verdict = Verified(id: UserId) | Invalid(message: string)

  /** The users and posts collections. */
  class Database {
    var users: map<UserId, User>
    var blogs: map<PostId, Post>
    var nextPostId: PostId

    /** Every stored post has an id the store has already handed out. */
    ghost predicate Valid()
      reads this
    {
      forall id :: id in blogs ==> id < nextPostId
    }

    constructor (users: map<UserId, User>)
      ensures Valid() && this.users == users && blogs == map[]
    {
      this.users := users;
      blogs := map[];
      nextPostId := 0;
    }

    /** `User.findById(id)`: the user, or `null`. */
    function FindUser(id: UserId): (r: Option<User>)
      reads this
    {
      if id in users then Some(users[id]) else None
    }

    /** `Blog.findById(id)`: the post, or `null`. */
    function FindPost(id: PostId): (r: Option<Post>)
      reads this
    {
      if id in blogs then Some(blogs[id]) else None
    }

    /** `Blog.create(post)`: stores the post under a fresh id. */
    method Create(post: Post) returns (id: PostId)
      requires Valid()
      modifies this
      ensures Valid()
      ensures id !in old(blogs)
      ensures blogs == old(blogs)[id := post] && users == old(users)
    {
      id := nextPostId;
      blogs := blogs[id := post];
      nextPostId := nextPostId + 1;
    }

    /** `doc.save()` for a post loaded from the store: its record is overwritten. */
    method Save(id: PostId, post: Post)
      requires Valid() && id in blogs
      modifies this`blogs
      ensures Valid()
      ensures blogs == old(blogs)[id := post]
      ensures blogs.Keys == old(blogs).Keys
    {
      blogs := blogs[id := post];
    }

    /** `Blog.findByIdAndDelete(id)`: removes the post and yields it, or yields `null`. */
    method FindByIdAndDelete(id: PostId) returns (deleted: Option<Post>)
      requires Valid()
      modifies this`blogs
      ensures Valid()
      ensures deleted == old(FindPost(id))
      ensures blogs == old(blogs) - {id}
    {
      deleted := FindPost(id);
      blogs := blogs - {id};
    }
  }
}
