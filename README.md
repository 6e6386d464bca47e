# BYTESITE blog backend: inline-image rewriter, post routes and admin gate

This project is a Dafny model of the parts of the BYTESITE blog backend that hold logic:

- **`replaceLocalImagesWithCloudinary`** (`utils.js`). The helper scans a post's HTML for `<img src="…"` with the global regular expression `/<img src="([^"]+)"/g`. It uploads every captured source that begins with `data:image/` to the hosted image store. After each upload it replaces the first remaining occurrence of that source in the output with the URL the store returned.
- **The post routes** (`routes/blogRoutes.js`):
  - the multer upload filter and size limit;
  - the create handler and the record it stores;
  - the update handler: the cover upload that runs before the token check, the author-or-admin rule, the 403 refusal, and the field merge.
- **The admin routes** (`routes/adminRoutes.js`):
  - the `isAdmin` middleware: token, then verification, then user lookup, then admin flag; the first failing check decides the reply;
  - the delete handler behind it.

The model is organised in these files:

- `js_string.dfy` holds the `String.prototype` operations the helper relies on (`startsWith`, `indexOf`, `replace` with a string pattern).
- `utils.dfy` holds the helper:
  - `ImgTagRegex` is a class whose `Exec` moves `lastIndex` as a global `RegExp` does.
  - `ReplaceLocalImagesWithCloudinary` is a method with the source's `while` loop. It is proved against the functions `DataSources` (what gets uploaded, in order) and `ApplyReplacements` (the sequence of first-occurrence replacements).
- `rewrite_properties.dfy` compares that rewrite with `Splice`, a reference rewrite that puts each URL in its own tag's place.
- `rewrite_examples.dfy` shows two concrete behaviours:
  - two identical data URIs give two uploads, and each tag gets its own URL;
  - a copy of the data URI in text before its tag receives the URL, and the tag keeps the data URI.
- `store.dfy` holds:
  - the records (`User`, `Post`);
  - the `Database` class whose maps the handlers read and write;
  - the replies a request can end in. A reply is one of:
    - `Json(status, body)`;
    - `ErrorPage`: an error the framework's default handler renders;
    - `Unanswered`: an exception escaped an async handler or callback, so no reply is sent.
- `blog_routes.dfy` and `admin_routes.dfy` hold the route logic.

External calls are parameters:

- `coverUrl` is the cover upload's `secure_url`.
- `urls` are the inline uploads' URLs, in upload order.
- `verdict` / `verify` stand for `jwt.verify`: it yields the decoded user id or the message of the error it throws.

## Model

| member | source | states |
|---|---|---|
| `JsString.ReplaceFirst` | utils.js:16 | `replace` with a string pattern leaves the text unchanged when the pattern does not occur |
| `JsString.ReplaceFirstAt` | utils.js:16 | `replace` rewrites exactly the leftmost occurrence: the text before it, the replacement, then the text after it |
| `JsString.IndexOf` | utils.js:16 | the occurrence found is the leftmost at or after the start index; none means no occurrence there |
| `JsString.StartsWith` | utils.js:11 | defined as `s.startsWith(prefix)`: the prefix fits in `s` and equals its first characters. Its uses are stated in `BlogRoutes.FileFilter` and `Utils.DataMatches` |
| `Utils.RegexMatchesAt` | utils.js:5 | defined as a match of `<img src="([^"]+)"` at `p` with capture `src`. `Utils.MatchAt` and `Utils.MatchAtComplete` prove the executable search equal to it |
| `Utils.MatchAt` | utils.js:5 | a match found at `p` is a real match of `<img src="([^"]+)"`: the case-sensitive literal, a non-empty capture free of `"`, then a `"` |
| `Utils.MatchAtComplete` | utils.js:5 | wherever the pattern matches, the match is found there with exactly that capture (the greedy `[^"]+` takes the whole quote-free run) |
| `Utils.NextMatch` | utils.js:9 | `exec` from `lastIndex` returns the leftmost match at or after it, and there is no match between `lastIndex` and it |
| `Utils.AllMatches` | utils.js:9 | defined as the sequence of `exec` results from `from` until `exec` returns `null`: the matches the `while` loop visits. Its properties are proved in `Utils.AllMatchesSound` and `Utils.AllMatchesCover`, and the loop invariant of `Utils.ReplaceLocalImagesWithCloudinary` ties the loop to it |
| `Utils.ImgTagRegex.Exec` | utils.js:5-9 | `exec` returns the next match from `lastIndex`, moves `lastIndex` just past the closing quote, and resets it to 0 when nothing is found |
| `Utils.AllMatchesSound` | utils.js:9 | the loop visits only real matches, at or after its start, non-overlapping and in increasing position order |
| `Utils.AllMatchesCover` | utils.js:9 | the loop skips no match except one that starts inside a match it has already taken |
| `Utils.IsDataImage` | utils.js:11 | defined as `localPath.startsWith("data:image/")`. `RewriteProperties.DataMatchesEmpty` and `Utils.DataMatchesComplete` are stated with it |
| `Utils.DataMatches` | utils.js:9-11 | the visited matches whose capture starts with `data:image/`, in scan order: never more than were visited, and each one a data image. `Utils.DataMatchesSubsequence` and `Utils.DataMatchesComplete` prove it keeps exactly those |
| `Utils.Sources` | utils.js:10 | defined as `match[1]` of each match: the captures, one per match, in the same order. `Utils.DataSourcesSound` and `Utils.ReplaceLocalImagesWithCloudinary` are stated through it |
| `Utils.DataSources` | utils.js:9-15 | defined as the captures of the data-image matches of the scan from 0: the sources uploaded, in upload order. Its properties are proved in `Utils.DataSourcesSound`, `RewriteProperties.DataMatchesEmpty` and `RewriteExamples.DuplicateUploadedTwice` |
| `Utils.ApplyReplacements` | utils.js:7-17 | defined as `updatedContent` after one `replace(src, url)` per uploaded source, in upload order, starting from `content`. `RewriteProperties.ReplacementsArePositional` proves where each URL lands |
| `Utils.RewriteInlineImages` | utils.js:4-21 | defined as what `replaceLocalImagesWithCloudinary(content)` resolves to. The method is proved to return it, `RewriteProperties.RewriteIsPositional` and `RewriteProperties.NoDataImagesUnchanged` state what it does to the text, and the handlers store it |
| `Utils.DataMatchesSubsequence` | utils.js:9-11 | the uploaded matches are visited matches and keep the scan order |
| `Utils.DataMatchesComplete` | utils.js:10-11 | every visited match whose source starts with `data:image/` is uploaded; repeated identical sources are each uploaded |
| `Utils.DataSourcesSound` | utils.js:5-11 | a source is uploaded only if it begins with `data:image/` and is the capture of a match of the pattern in the content |
| `Utils.ReplaceLocalImagesWithCloudinary` | utils.js:4-21 | the loop uploads exactly `DataSources(content)`, in scan order, one per qualifying match. Its output is the content after one first-occurrence replacement per upload, with that upload's URL. Matches come from the original content only, so inserted URLs are never scanned. The loop terminates |
| `RewriteProperties.DataMatchesEmpty` | utils.js:11 | nothing is uploaded if and only if no visited source begins with `data:image/` |
| `RewriteProperties.NoDataImagesUnchanged` | utils.js:7-20 | when no captured source begins with `data:image/`, no upload is requested and the content is returned unchanged |
| `RewriteProperties.ReplacementsArePositional` | utils.js:16 | the first `n` replacements put each of the first `n` captures' URLs in that capture's own place. This holds when no source occurs in earlier kept text or an earlier URL |
| `RewriteProperties.RewriteIsPositional` | utils.js:9-20 | under the same condition, the rewrite replaces each uploaded source in its own tag with its own upload's URL. All other text, including non-`data:` sources, is kept in order |
| `RewriteExamples.DuplicateUploadedTwice` | utils.js:9-15 | two tags with the same data URI cause two uploads of that URI |
| `RewriteExamples.DuplicateEachGetsOwnUrl` | utils.js:16 | with two tags holding the same data URI, the first tag gets the first URL and the second tag the second, if the first URL does not contain the data URI |
| `RewriteExamples.StrayCopyTakesTheUrl` | utils.js:16 | a copy of the data URI in the text before its tag is the one replaced: the URL lands in the text and the tag keeps its data URI |
| `BlogRoutes.FileFilter` | routes/blogRoutes.js:16-22 | a file is accepted if and only if its mimetype starts with `image/`; otherwise the error is "Invalid file type, only images are allowed." |
| `BlogRoutes.ImageSubtypesAccepted` | routes/blogRoutes.js:17-18 | every `image/…` mimetype is accepted |
| `BlogRoutes.FilterIsLiteral` | routes/blogRoutes.js:17-20 | the test is case-sensitive and needs the slash: `Image/png`, `image` and `text/html` are refused |
| `BlogRoutes.Stage` | routes/blogRoutes.js:13-23 | for the `file` part, multer stages a file only if the filter accepts it and it is at most the size limit. A non-image is refused with the filter's message. An image over the limit is refused with "File too large". Without a file part the handler runs with no `req.file` |
| `BlogRoutes.SizeLimitIsTenMiB` | routes/blogRoutes.js:15 | the limit is 10 × 1024 × 1024 bytes: a file of exactly that size is staged, one byte more is refused |
| `BlogRoutes.EditDecision` | routes/blogRoutes.js:95-101 | an edit is allowed if and only if the post exists and the token's user is its author or an admin. It is forbidden if and only if the user exists, is not the author and is not an admin. The expression throws when the post is missing, or when a non-author's account is missing |
| `BlogRoutes.AuthorNeedsNoAccount` | routes/blogRoutes.js:99-101 | the author may edit even without a user record, because `user.isAdmin` is read only for someone else's post |
| `BlogRoutes.MergeUpdate` | routes/blogRoutes.js:110-116 | an allowed edit overwrites title, summary and content and keeps the author. A new, non-empty cover URL replaces the cover; an absent or empty one keeps the old cover |
| `BlogRoutes.MergeIdempotent` | routes/blogRoutes.js:110-118 | merging the same title, summary, rewritten content and cover URL a second time gives what one merge gives. A resubmitted request is not covered, because it uploads again and the store returns fresh URLs |
| `BlogRoutes.CreatePost` | routes/blogRoutes.js:26-55 | a refused file gets the error page, a missing file or a bad token gets no reply, and neither stores anything. Otherwise the cover is uploaded and the inline images are rewritten. The post stored under a fresh id has author = the token's user, cover = the uploaded URL, and content = the rewritten content. It is returned with status 200 |
| `BlogRoutes.UpdatePost` | routes/blogRoutes.js:75-122 | a staged cover is uploaded before the token is checked, so a forbidden or failing update still uploads it. A forbidden edit gets 403 "You are not authorized to edit this post" and changes nothing. An allowed edit stores `MergeUpdate` of the post with the rewritten content and returns it. No other post changes |
| `AdminRoutes.HasToken` | routes/adminRoutes.js:12 | defined as the negation of `!token`: a cookie that is present and non-empty. `AdminRoutes.AdminGate` and `AdminRoutes.NoTokenNeedsNoLookup` are stated with it |
| `AdminRoutes.AdminGate` | routes/adminRoutes.js:9-36 | checks run in order: token, verify, user, admin flag. A missing or empty token gets 401 "No token, authorization denied". A verify error gets 500 "Server error" with the error's message. An unknown user gets 401 "User not found". A non-admin gets 403 "Access denied. Admin rights required.". The request passes, with the loaded user, if and only if every check passes |
| `AdminRoutes.GateStatusTellsCause` | routes/adminRoutes.js:12-34 | each refusal status names its cause: 401 means no token or no user, 403 means an existing non-admin, 500 means a token that does not verify. Every refusal carries a `message` |
| `AdminRoutes.NoTokenNeedsNoLookup` | routes/adminRoutes.js:11-16 | without a token the reply does not depend on verification or on the users collection |
| `AdminRoutes.IsAdmin` | routes/adminRoutes.js:9-36 | a refusal replies and calls `next` zero times. A pass sets `req.user` to the loaded user and calls `next` exactly once |
| `AdminRoutes.DeleteBlog` | routes/adminRoutes.js:47-57 | a missing post gets 404 "Blog not found" and nothing changes. An existing post is removed and the reply is "Blog deleted successfully" |
| `AdminRoutes.DeleteRoute` | routes/adminRoutes.js:47 | the delete route runs the gate first. A post is removed only when the gate passes and the post exists |
| `Store.Database.FindUser` | routes/blogRoutes.js:96 | defined as `User.findById` read as a lookup in the users map: the stored user, or `null` (`None`). `BlogRoutes.UpdatePost` is stated through it |
| `Store.Database.FindPost` | routes/blogRoutes.js:95 | defined as `Blog.findById` read as a lookup in the posts map: the stored post, or `null` (`None`). `BlogRoutes.UpdatePost` is stated through it and passes it to `BlogRoutes.EditDecision` |
| `Store.Database.Create` | routes/blogRoutes.js:46-52 | `Blog.create` stores the record under an id not in use, and no other post or user changes |
| `Store.Database.Save` | routes/blogRoutes.js:118 | `save` overwrites the loaded post's record, and the set of posts is unchanged |
| `Store.Database.FindByIdAndDelete` | routes/adminRoutes.js:49 | `findByIdAndDelete` removes the post and yields it, or yields `null` |

## Left out

- `index.js` and `routes/authRoutes.js` are not part of this model. They cover server set-up, registration and login, password hashing and token signing.
- The listing and single-post routes (`routes/blogRoutes.js:57-72`) and the admin user listing (`routes/adminRoutes.js:38-45`) are left out. Their behaviour is library work: `find`, `populate`, `sort`, `limit(18)`, `select("-password")`.
- BlogRoutes.Stage models the `file` part only. Multer's other default limits are not modelled, and neither is its refusal of unexpected parts, so BlogRoutes.CreatePost and BlogRoutes.UpdatePost may run the handler where multer would not. Multer refuses a text field over 1 MiB (1048576 bytes) with "Field value too long", for example a `content` with a large inline data URI. It refuses a file under another field name, or a second `file`, with "Unexpected field". In both cases the error reaches the default error handler and the handler never runs. Modelling this needs the UTF-8 byte length of each field and the order of the parts in the stream.
- BlogRoutes.UpdatePost, BlogRoutes.CreatePost and BlogRoutes.MergeUpdate take `title`, `summary` and `content` to be present in the request body (routes/blogRoutes.js:28, 94). When a field is omitted, the source reads `undefined`. `replaceLocalImagesWithCloudinary(undefined)` then finds no match and returns `undefined`, which is written into the document at routes/blogRoutes.js:110-112 or passed to `Blog.create`. Whether that unsets the field or fails validation depends on the Blog schema, which is not part of this model.
- Network calls to the image store are left out. An upload always succeeds and yields the next URL from `urls`, or `coverUrl`. Upload failures and the remote folder names (`blog_images`, `blog_covers`) are not modelled.
- Utils.ReplaceLocalImagesWithCloudinary requires the URL list to hold at least one URL per upload. It stands for the store answering every upload. The same requirement appears on `BlogRoutes.CreatePost` and `BlogRoutes.UpdatePost`.
- `$` patterns in `replace` replacement strings are not interpreted. Returned URLs are taken to contain none.
- RewriteProperties.RewriteIsPositional states in-place replacement only under `NoStrayCopies`. That condition says no source occurs in earlier kept text or in an earlier URL. Without it, the code replaces the first textual occurrence, which may lie outside the tag; `RewriteExamples.StrayCopyTakesTheUrl` shows this. A reading under which every embedded image is rewritten in its own tag, with one upload per distinct URI, does not match the code. The model follows the code: one upload per occurrence, then a first-occurrence replacement.
- Database failures are not modelled: lookups always succeed. This includes `CastError` on a malformed id and the `catch` branch of the delete handler (`routes/adminRoutes.js:54-56`). In `isAdmin` a failing `User.findById` would also reach the 500 branch. Only a verification error is modelled there.
- A post being edited is modelled as a value that is loaded, merged and saved. The in-place mutation of the mongoose document is not modelled, and neither are concurrent edits.
- `JSON.stringify(blogDoc.author) === JSON.stringify(info.id)` is modelled as equality of ids.
- The `createdAt` timestamp and the author's existence at creation are not modelled. The handler does not check the latter.
- `fs.unlinkSync` and multer's disk staging are modelled only through `coverUploaded`, the staged path that is uploaded and then deleted.
- `Unanswered` does not model what happens to an escaped exception beyond "no reply is sent".
- Strings are sequences of Unicode scalar values, while JavaScript indexes UTF-16 code units. Positions past a character outside the Basic Multilingual Plane differ, and lone surrogates cannot be represented. Captures end at an ASCII `"`, so the text the rewrite produces is unaffected.
- `ErrorPage` does not model the markup of the default error page. For multer's size error only its message, "File too large", is kept.
