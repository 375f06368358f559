/**
 The comment-submission guard of blog.py (`post_new_comment`), as a pure
 decision: given the post looked up by permalink (or none) and the submitted
 fields, say whether to report a missing post, re-show the form with an error,
 or add the comment.
 */
module Comments {

  datatype Option<T> = None | Some(value: T)

  /** The comment fields as entered in the form. */
  datatype CommentForm = CommentForm(name: string, email: string, body: string)

  const FormErrorMessage := "Post must contain your name and an actual comment."
  const NotFoundPath := "/post_not_found"

  /** The three ways the handler can end. `P` is whatever the post lookup
      returns; the guard only passes it on. */
  datatype CommentOutcome<P> =
    | NotFound(redirect: string)
      // re-render the post page with the entered values and an error
    | FormError(post: P, username: Option<string>, comment: CommentForm, errors: string)
      // `add_comment(permalink, name, email, body)`, then back to the post
    | Insert(permalink: string, comment: CommentForm, redirect: string)

  function NewComment<P>(post: Option<P>, username: Option<string>, permalink: string,
                         name: string, email: string, body: string): (r: CommentOutcome<P>)
    ensures r.NotFound? <==> post.None?
    ensures r.NotFound? ==> r.redirect == NotFoundPath
    ensures r.Insert? <==> post.Some? && name != "" && body != ""
    ensures r.Insert? ==> && r.permalink == permalink
                          && r.comment == CommentForm(name, email, body)
                          && r.redirect == "/post/" + permalink
    ensures r.FormError? ==> && post == Some(r.post)
                             && r.username == username
                             && r.comment == CommentForm(name, email, body)
                             && r.errors == FormErrorMessage
                             && (name == "" || body == "")
  {
    match post
    case None => NotFound(NotFoundPath)
    case Some(p) =>
      if name == "" || body == "" then
        FormError(p, username, CommentForm(name, email, body), FormErrorMessage)
      else
        Insert(permalink, CommentForm(name, email, body), "/post/" + permalink)
  }
}
