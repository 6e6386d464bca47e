/**
 * The post routes: the upload staging that runs before each handler, the
 * create handler and the update handler. Cloudinary answers are
 * parameters: `coverUrl` is the `secure_url` the cover upload returns, and
 * `urls` are the URLs the inline-image uploads return, in order.
 */
module BlogRoutes {
  import opened Wrappers
  import opened JsString
  import opened Store
  import Utils

  /** The size limit given to multer for the `file` field, in bytes. */
  const MaxFileSize: nat := 10 * 1024 * 1024

  const ImageMimePrefix := "image/"
  const InvalidFileType := "Invalid file type, only images are allowed."
  /** The message of multer's own LIMIT_FILE_SIZE error. */
  const FileTooLarge := "File too large"
  const NotAuthorized := "You are not authorized to edit this post"

  /** What the file filter tells multer through its callback. */
  datatype Acceptance = Accept | Reject(message: string)

  /** The `fileFilter` given to multer: only `image/…` mimetypes are staged. */
  function FileFilter(mimetype: string): (r: Acceptance)
    ensures r.Accept? <==> StartsWith(mimetype, ImageMimePrefix)
    ensures r.Reject? ==> r.message == InvalidFileType
  {
    if StartsWith(mimetype, ImageMimePrefix) then Accept else Reject(InvalidFileType)
  }

  /** Any `image/` subtype passes, whatever follows the slash. */
  lemma ImageSubtypesAccepted(subtype: string)
    ensures FileFilter(ImageMimePrefix + subtype) == Accept
  {
    StartsWithAppend(ImageMimePrefix, subtype);
  }

  /** The prefix test is case-sensitive and needs the slash. */
  lemma FilterIsLiteral()
    ensures FileFilter("Image/png") == Reject(InvalidFileType)
    ensures FileFilter("image") == Reject(InvalidFileType)
    ensures FileFilter("text/html") == Reject(InvalidFileType)
  {
    assert "Image/png"[..6] != ImageMimePrefix by { assert "Image/png"[0] != ImageMimePrefix[0]; }
    assert "text/html"[..6] != ImageMimePrefix by { assert "text/html"[0] != ImageMimePrefix[0]; }
  }

  /** The multipart `file` part as the client sends it, and the path multer stages it at. */
  datatype FilePart = FilePart(mimetype: string, size: nat, path: string)

  /**
   * What `uploadMiddlerware.single("file")` leaves for the handler: no
   * `req.file`, a file staged at `path`, or an error passed to `next` (the
   * handler then does not run).
   */
  datatype Staging = NoFile | Staged(path: string) | Refused(message: string)

  /** Multer asks the filter first and enforces the size limit while the file streams in. */
  function Stage(part: Option<FilePart>): (r: Staging)
    ensures r.NoFile? <==> part.None?
    ensures r.Staged? <==>
            part.Some? && FileFilter(part.value.mimetype).Accept? && part.value.size <= MaxFileSize
    ensures r.Staged? ==> r.path == part.value.path
    ensures part.Some? && !StartsWith(part.value.mimetype, ImageMimePrefix) ==> r == Refused(InvalidFileType)
    ensures part.Some? && StartsWith(part.value.mimetype, ImageMimePrefix) && part.value.size > MaxFileSize ==>
              r == Refused(FileTooLarge)
    ensures r.Refused? && r.message == FileTooLarge ==> part.value.size > MaxFileSize
  {
    match part
    case None => NoFile
    case Some(f) =>
      match FileFilter(f.mimetype)
      case Reject(message) => Refused(message)
      case Accept => if f.size <= MaxFileSize then Staged(f.path) else Refused(FileTooLarge)
  }

  /** The limit is ten MiB: a file of exactly that size is staged, one byte more is refused. */
  lemma SizeLimitIsTenMiB(mimetype: string, path: string)
    requires StartsWith(mimetype, ImageMimePrefix)
    ensures Stage(Some(FilePart(mimetype, 10485760, path))) == Staged(path)
    ensures Stage(Some(FilePart(mimetype, 10485761, path))) == Refused(FileTooLarge)
  {
  }

  /** How the update handler's author-or-admin expression comes out. */
  datatype Decision = Allowed | Forbidden | Throws

  /**
   * `blogDoc.author === info.id || user.isAdmin`. It throws when the post
   * is missing, and when the editor is not the author and their account is
   * missing.
   */
  function EditDecision(post: Option<Post>, editorId: UserId, editor: Option<User>): (r: Decision)
    ensures r.Allowed? <==> post.Some? && (post.value.author == editorId || (editor.Some? && editor.value.isAdmin))
    ensures r.Forbidden? <==>
            post.Some? && post.value.author != editorId && editor.Some? && !editor.value.isAdmin
    ensures r.Throws? <==> post.None? || (post.value.author != editorId && editor.None?)
  {
    if post.None? then Throws
    else if post.value.author == editorId then Allowed
    else if editor.None? then Throws
    else if editor.value.isAdmin then Allowed
    else Forbidden
  }

  /** The admin flag is consulted only for someone else's post, so an author needs no account record. */
  lemma AuthorNeedsNoAccount(post: Post, editor: Option<User>)
    ensures EditDecision(Some(post), post.author, editor) == Allowed
  {
  }

  /**
   * The fields an authorized update writes. `newCover` is `newCoverUrl`;
   * the cover moves only when it is truthy (present and non-empty).
   */
  function MergeUpdate(post: Post, title: string, summary: string, content: string, newCover: Option<string>): (r: Post)
    ensures r.title == title && r.summary == summary && r.content == content
    ensures r.author == post.author
    ensures newCover.Some? && newCover.value != "" ==> r.cover == newCover.value
    ensures !(newCover.Some? && newCover.value != "") ==> r.cover == post.cover
  {
    var cover := if newCover.Some? && newCover.value != "" then newCover.value else post.cover;
    Post(title, summary, content, cover, post.author)
  }

  /** Submitting the same edit twice leaves the post as one submission does. */
  lemma MergeIdempotent(post: Post, title: string, summary: string, content: string, newCover: Option<string>)
    ensures var once := MergeUpdate(post, title, summary, content, newCover);
            MergeUpdate(once, title, summary, content, newCover) == once
  {
  }

  /**
   * `POST /create`. Destructuring an absent `req.file` throws, and so does
   * the verify callback on a bad token; neither is caught, so no reply is
   * sent. Otherwise the cover is uploaded and its staged file deleted, the
   * inline images are rewritten, and the new post (author: the token's
   * user; cover: the uploaded cover's URL; content: the rewritten content)
   * is stored and returned.
   */
  method CreatePost(db: Database, part: Option<FilePart>, title: string, summary: string, content: string,
                    verdict: Verdict, coverUrl: string, urls: seq<string>)
    returns (reply: Reply, coverUploaded: Option<string>, inlineUploads: seq<string>)
    requires db.Valid()
    requires |Utils.DataSources(content)| <= |urls|
    modifies db
    ensures db.Valid() && db.users == old(db.users)
    ensures Stage(part).Refused? ==> reply == ErrorPage(Stage(part).message)
    ensures Stage(part).NoFile? || (Stage(part).Staged? && verdict.Invalid?) ==> reply == Unanswered
    ensures !(Stage(part).Staged? && verdict.Verified?) ==>
              db.blogs == old(db.blogs) && coverUploaded == None && inlineUploads == []
    ensures Stage(part).Staged? && verdict.Verified? ==>
              && coverUploaded == Some(Stage(part).path)
              && inlineUploads == Utils.DataSources(content)
              && reply.Json? && reply.status == 200 && reply.body.Document?
              && reply.body.id !in old(db.blogs)
              && reply.body.post == Post(title, summary, Utils.RewriteInlineImages(content, urls), coverUrl, verdict.id)
              && db.blogs == old(db.blogs)[reply.body.id := reply.body.post]
  {
    coverUploaded, inlineUploads := None, [];
    var staging := Stage(part);
    if staging.Refused? {
      return ErrorPage(staging.message), None, [];
    }
    if staging.NoFile? {
      return Unanswered, None, [];
    }
    if verdict.Invalid? {
      return Unanswered, None, [];
    }
    // the cover goes to the hosted store and the staged file is deleted
    coverUploaded := Some(staging.path);
    var updatedContent;
    updatedContent, inlineUploads := Utils.ReplaceLocalImagesWithCloudinary(content, urls);
    var post := Post(title, summary, updatedContent, coverUrl, verdict.id);
    var id := db.Create(post);
    reply := Json(200, Document(id, post));
  }

  /**
   * `PUT /create`. A staged cover is uploaded (and its file deleted) before
   * the token is looked at. A bad token, a missing post, or a missing
   * account for someone other than the author makes the handler throw, with
   * no reply. A forbidden edit gets 403. An allowed edit overwrites title,
   * summary and the rewritten content, moves the cover when a new one was
   * uploaded, saves and returns the post.
   */
  method UpdatePost(db: Database, part: Option<FilePart>, verdict: Verdict, id: PostId,
                    title: string, summary: string, content: string, coverUrl: string, urls: seq<string>)
    returns (reply: Reply, coverUploaded: Option<string>, inlineUploads: seq<string>)
    requires db.Valid()
    requires |Utils.DataSources(content)| <= |urls|
    modifies db`blogs
    ensures db.Valid() && db.blogs.Keys == old(db.blogs).Keys
    ensures Stage(part).Refused? ==> reply == ErrorPage(Stage(part).message) && coverUploaded == None
    ensures !Stage(part).Refused? ==>
              coverUploaded == (if Stage(part).Staged? then Some(Stage(part).path) else None)
    ensures var decision := if Stage(part).Refused? || verdict.Invalid? then Throws
                            else EditDecision(old(db.FindPost(id)), verdict.id, db.FindUser(verdict.id));
            && (decision.Throws? && !Stage(part).Refused? ==> reply == Unanswered)
            && (decision.Forbidden? ==> reply == Json(403, Text(NotAuthorized)))
            && (!decision.Allowed? ==> db.blogs == old(db.blogs) && inlineUploads == [])
            && (decision.Allowed? ==>
                  var newCover := if Stage(part).Staged? then Some(coverUrl) else None;
                  var post := MergeUpdate(old(db.blogs[id]), title, summary,
                                          Utils.RewriteInlineImages(content, urls), newCover);
                  && inlineUploads == Utils.DataSources(content)
                  && db.blogs == old(db.blogs)[id := post]
                  && reply == Json(200, Document(id, post)))
  {
    coverUploaded, inlineUploads := None, [];
    var staging := Stage(part);
    if staging.Refused? {
      return ErrorPage(staging.message), None, [];
    }
    var newCoverUrl: Option<string> := None;
    if staging.Staged? {
      // upload, then `fs.unlinkSync(path)`
      newCoverUrl := Some(coverUrl);
      coverUploaded := Some(staging.path);
    }
    if verdict.Invalid? {
      return Unanswered, coverUploaded, [];
    }
    var blogDoc := db.FindPost(id);
    var user := db.FindUser(verdict.id);
    match EditDecision(blogDoc, verdict.id, user)
    case Throws =>
      reply := Unanswered;
    case Forbidden =>
      reply := Json(403, Text(NotAuthorized));
    case Allowed =>
      var updatedContent;
      updatedContent, inlineUploads := Utils.ReplaceLocalImagesWithCloudinary(content, urls);
      var post := MergeUpdate(blogDoc.value, title, summary, updatedContent, newCoverUrl);
      db.Save(id, post);
      reply := Json(200, Document(id, post));
  }
}
