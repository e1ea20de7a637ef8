/**
 * The program's `execute` pipeline without its output: find the weekly post,
 * fetch its thread, flatten the comments and extract the handles.
 */
module FriFinder {
  import opened Wrappers
  import opened Records
  import Lookup
  import Handles

  /** The subreddit listing that is fetched first. */
  const SUB_URL := "https://www.reddit.com/r/Instagram.json"
  /** Appended to the post's url to fetch its whole thread. */
  const POST_APPEND := ".json?limit=10000"

  /**
   * `execute` up to the list it would write out. The two HTTP requests are
   * the parameters `getPage` and `getPost`; `None` stands for a request or a
   * JSON decoding that failed. Every failure ends the run with its error.
   */
  method Execute(getPage: string -> Option<SubResponse>, getPost: string -> Option<seq<PostResponse>>)
    returns (r: Result<seq<string>, Failure>)
    ensures match getPage(SUB_URL)
      case None => r == Failure(HttpError)
      case Some(resp) =>
        match Lookup.GetFridayUrl(resp)
        case None => r == Failure(Custom(GetUrlError))
        case Some(url) =>
          match getPost(url + POST_APPEND)
          case None => r == Failure(HttpError)
          case Some(post) =>
            if Lookup.HasCommentListing(post) then
              Handles.Extracted(Lookup.Bodies(Lookup.CommentListing(post)), r)
            else
              r == Failure(Custom(NullJsonError))
  {
    var page := getPage(SUB_URL);
    if page.None? {
      return Failure(HttpError);
    }
    var postUrl := Lookup.GetFridayUrl(page.value);
    if postUrl.None? {
      return Failure(Custom(GetUrlError));
    }
    var post := getPost(postUrl.value + POST_APPEND);
    if post.None? {
      return Failure(HttpError);
    }
    var posts := Lookup.GetComments(post.value);
    if posts.None? {
      return Failure(Custom(NullJsonError));
    }
    r := Handles.GetInstagrams(posts.value);
  }
}
