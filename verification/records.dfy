/**
 * The decoded forum JSON: every field may be absent, as in the program's
 * `Option` fields. Also the errors a run can end with.
 */
module Records {
  import opened Wrappers

  /** One entry of the subreddit listing. */
  datatype SubCData = SubCData(title: Option<string>, stickied: Option<bool>, url: Option<string>)
  datatype SubChild = SubChild(data: Option<SubCData>)
  datatype SubRData = SubRData(children: Option<seq<SubChild>>)
  /** The subreddit listing as a whole. */
  datatype SubResponse = SubResponse(data: Option<SubRData>)

  /** One comment of a thread. */
  datatype PostCommentData = PostCommentData(body: Option<string>)
  datatype PostChildren = PostChildren(data: Option<PostCommentData>)
  datatype PostData = PostData(children: Option<seq<PostChildren>>)
  /** One top-level listing of a thread; a thread is a sequence of them. */
  datatype PostResponse = PostResponse(data: Option<PostData>)

  /** The program's own error type. */
  datatype CustomError = GetUrlError | ParseError(part: string) | NullJsonError

  /**
   * Every way a run can end early: one of the program's own errors, a failed
   * HTTP request or JSON decoding, or the out-of-bounds panic of indexing past
   * the last token of a comment.
   */
  datatype Failure = Custom(error: CustomError) | HttpError | OutOfBounds(index: nat, length: nat)
}
