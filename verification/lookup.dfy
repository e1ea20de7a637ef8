/**
 * Finding the weekly post in the subreddit listing (`get_friday_url`) and
 * flattening the comment listing of its thread (`get_comments`).
 */
module Lookup {
  import opened Wrappers
  import opened Records
  import Text

  /** The phrase the weekly post's title contains. */
  const KEY_WORD := "Follow Friday"

  /* ---------------- get_friday_url ---------------- */

  /**
   * A listing entry that is the weekly post: it has data, is stickied (an
   * absent flag counts as false) and its title (an absent title counts as
   * empty) contains the key phrase.
   */
  predicate IsFridayPost(child: SubChild) {
    child.data.Some?
    && child.data.value.stickied.GetOr(false)
    && Text.Contains(child.data.value.title.GetOr(""), KEY_WORD)
  }

  /** A weekly post that also carries a url. */
  predicate HasFridayUrl(child: SubChild) {
    IsFridayPost(child) && child.data.value.url.Some?
  }

  /** `u` is the url of the first entry of `children` that has a weekly-post url. */
  ghost predicate IsFirstFridayUrl(children: seq<SubChild>, u: string) {
    exists i :: 0 <= i < |children| && HasFridayUrl(children[i])
      && children[i].data.value.url.value == u
      && forall j :: 0 <= j < i ==> !HasFridayUrl(children[j])
  }

  /** The loop of `get_friday_url`: the first weekly post with a url wins. */
  function FirstFridayUrl(children: seq<SubChild>): (r: Option<string>)
    ensures r.None? <==> forall i :: 0 <= i < |children| ==> !HasFridayUrl(children[i])
    ensures r.Some? ==> IsFirstFridayUrl(children, r.value)
  {
    if children == [] then None
    else
      var rest := FirstFridayUrl(children[1..]);
      assert forall i :: 1 <= i < |children| ==> children[i] == children[1..][i - 1];
      assert rest.Some? && !HasFridayUrl(children[0]) ==> IsFirstFridayUrl(children, rest.value) by {
        if rest.Some? && !HasFridayUrl(children[0]) {
          var i :| 0 <= i < |children[1..]| && HasFridayUrl(children[1..][i])
            && children[1..][i].data.value.url.value == rest.value
            && forall j :: 0 <= j < i ==> !HasFridayUrl(children[1..][j]);
          assert forall j :: 0 <= j < i + 1 ==> !HasFridayUrl(children[j]) by {
            forall j | 0 <= j < i + 1 ensures !HasFridayUrl(children[j]) {
              if j > 0 {
                assert children[j] == children[1..][j - 1];
              }
            }
          }
          assert children[i + 1] == children[1..][i];
        }
      }
      match children[0].data
      case Some(cdata) =>
        if cdata.stickied.GetOr(false) && Text.Contains(cdata.title.GetOr(""), KEY_WORD) then
          match cdata.url
          case Some(url) =>
            assert HasFridayUrl(children[0]);
            Some(url)
          case None => rest
        else rest
      case None => rest
  }

  /**
   * `get_friday_url`: an absent listing `data` or `children` gives `None`;
   * otherwise the url of the first weekly post that has one, or `None`.
   */
  function GetFridayUrl(resp: SubResponse): (r: Option<string>)
    ensures resp.data.None? || resp.data.value.children.None? ==> r.None?
    ensures resp.data.Some? && resp.data.value.children.Some? ==>
      var children := resp.data.value.children.value;
      && (r.None? <==> forall i :: 0 <= i < |children| ==> !HasFridayUrl(children[i]))
      && (r.Some? ==> IsFirstFridayUrl(children, r.value))
  {
    match resp.data
    case None => None
    case Some(rdata) =>
      match rdata.children
      case None => None
      case Some(children) => FirstFridayUrl(children)
  }

  /** The first-match condition names one url only. */
  lemma {:induction false} FirstFridayUrlUnique(children: seq<SubChild>, u: string, v: string)
    requires IsFirstFridayUrl(children, u) && IsFirstFridayUrl(children, v)
    ensures u == v
  {
    var i :| 0 <= i < |children| && HasFridayUrl(children[i])
      && children[i].data.value.url.value == u
      && forall j :: 0 <= j < i ==> !HasFridayUrl(children[j]);
    var k :| 0 <= k < |children| && HasFridayUrl(children[k])
      && children[k].data.value.url.value == v
      && forall j :: 0 <= j < k ==> !HasFridayUrl(children[j]);
    assert i == k;
  }

  /**
   * An entry without a stickied flag or without a title is never the weekly
   * post: the defaults `false` and `""` never match.
   */
  lemma {:induction false} UnmarkedEntryNeverMatches(child: SubChild)
    requires child.data.Some?
    requires child.data.value.stickied.None? || child.data.value.title.None?
    ensures !IsFridayPost(child)
  {
    if child.data.value.title.None? {
      assert !Text.StartsWith(""[0..], KEY_WORD);
    }
  }

  /** A weekly post without a url is skipped and the scan goes on. */
  lemma {:induction false} UrlLessFridayPostSkipped(child: SubChild, rest: seq<SubChild>)
    requires IsFridayPost(child) && child.data.value.url.None?
    ensures FirstFridayUrl([child] + rest) == FirstFridayUrl(rest)
  {
    assert ([child] + rest)[1..] == rest;
  }

  /* ---------------- get_comments ---------------- */

  predicate HasBody(child: PostChildren) {
    child.data.Some? && child.data.value.body.Some?
  }

  /** The bodies present among `children`, in listing order. */
  function Bodies(children: seq<PostChildren>): (r: seq<string>)
    ensures |r| <= |children|
    ensures (forall i :: 0 <= i < |children| ==> HasBody(children[i])) ==> |r| == |children|
  {
    if children == [] then []
    else
      var last := children[|children| - 1];
      Bodies(children[..|children| - 1])
        + (if HasBody(last) then [last.data.value.body.value] else [])
  }

  /** The flattening works piece by piece: it keeps listing order. */
  lemma {:induction false} BodiesAppend(a: seq<PostChildren>, b: seq<PostChildren>)
    ensures Bodies(a + b) == Bodies(a) + Bodies(b)
    decreases |b|
  {
    if b == [] {
      assert a + b == a;
    } else {
      var b' := b[..|b| - 1];
      assert (a + b)[..|a + b| - 1] == a + b';
      BodiesAppend(a, b');
    }
  }

  /** Every flattened string is the body of some child, and every body is kept. */
  lemma {:induction false} BodiesMembers(children: seq<PostChildren>)
    ensures forall x :: x in Bodies(children) <==>
      exists i :: 0 <= i < |children| && HasBody(children[i]) && children[i].data.value.body.value == x
  {
    if children != [] {
      var init := children[..|children| - 1];
      BodiesMembers(init);
      assert forall i :: 0 <= i < |init| ==> init[i] == children[i];
    }
  }

  /** The thread has a second listing with its `data` and `children`. */
  predicate HasCommentListing(post: seq<PostResponse>) {
    |post| >= 2 && post[1].data.Some? && post[1].data.value.children.Some?
  }

  function CommentListing(post: seq<PostResponse>): seq<PostChildren>
    requires HasCommentListing(post)
  {
    post[1].data.value.children.value
  }

  /**
   * `get_comments`: `None` when the thread has no second listing or it lacks
   * `data` or `children`; otherwise the bodies present in that listing, in
   * order. The first listing (the post itself) is not looked at.
   */
  method GetComments(post: seq<PostResponse>) returns (r: Option<seq<string>>)
    ensures r.None? <==> !HasCommentListing(post)
    ensures r.Some? ==> r.value == Bodies(CommentListing(post))
  {
    if |post| < 2 {
      return None;
    }
    match post[1].data {
      case None =>
        return None;
      case Some(pdata) =>
        match pdata.children {
          case None =>
            return None;
          case Some(children) =>
            var comments: seq<string> := [];
            for i := 0 to |children|
              invariant comments == Bodies(children[..i])
            {
              assert children[..i + 1][..i] == children[..i];
              match children[i].data {
                case Some(data) =>
                  match data.body {
                    case Some(body) =>
                      comments := comments + [body];
                    case None =>
                  }
                case None =>
              }
            }
            assert children[..|children|] == children;
            return Some(comments);
        }
    }
  }
}
