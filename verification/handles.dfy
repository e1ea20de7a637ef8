/**
 * `get_instagrams`: one handle per comment, taken from the comment's first
 * token that mentions someone (`@`) or links to an Instagram profile; then
 * the handles are sorted and repeated ones dropped.
 */
module Handles {
  import opened Wrappers
  import opened Records
  import Text
  import Ordering

  /** The profile-link prefix a token is searched for. */
  const INSTAGRAM := "https://www.instagram.com"

  predicate IsMention(token: string) {
    '@' in token
  }

  predicate IsProfileLink(token: string) {
    Text.Contains(token, INSTAGRAM)
  }

  /** A token that ends the scan of its comment. */
  predicate IsCue(token: string) {
    IsMention(token) || IsProfileLink(token)
  }

  /** No delimiter and none of `\ ( ) *`. */
  predicate Clean(h: string) {
    forall k :: 0 <= k < |h| ==> !Text.IsDelimiter(h[k]) && !Text.IsStripped(h[k])
  }

  /** Stripping a token without delimiters leaves it clean, with or without a leading `@`. */
  lemma {:induction false} StripClean(s: string)
    ensures Text.DelimiterFree(s) ==> Clean(Text.Strip(s)) && Clean("@" + Text.Strip(s))
  {
    var r := Text.Strip(s);
    if Text.DelimiterFree(s) {
      forall k | 0 <= k < |r|
        ensures !Text.IsDelimiter(r[k])
      {
        assert r[k] in r;
        var j :| 0 <= j < |s| && s[j] == r[k];
      }
      assert forall k :: 0 < k < |"@" + r| ==> ("@" + r)[k] == r[k - 1];
    }
  }

  /** A piece made of characters of a delimiter-free string is delimiter-free. */
  lemma {:induction false} PieceDelimiterFree(s: string, piece: string)
    requires forall j :: 0 <= j < |piece| ==> piece[j] in s
    ensures Text.DelimiterFree(s) ==> Text.DelimiterFree(piece)
  {
    if Text.DelimiterFree(s) {
      forall j | 0 <= j < |piece|
        ensures !Text.IsDelimiter(piece[j])
      {
        var k :| 0 <= k < |s| && s[k] == piece[j];
      }
    }
  }

  /** The index of the first cue among `parts`, if any. */
  function FirstCue(parts: seq<string>): (r: Option<nat>)
    ensures r.Some? ==> r.value < |parts| && IsCue(parts[r.value])
    ensures r.Some? ==> forall j :: 0 <= j < r.value ==> !IsCue(parts[j])
    ensures r.None? ==> forall j :: 0 <= j < |parts| ==> !IsCue(parts[j])
  {
    if parts == [] then None
    else if IsCue(parts[0]) then Some(0)
    else
      assert forall j :: 1 <= j < |parts| ==> parts[j] == parts[1..][j - 1];
      match FirstCue(parts[1..])
      case None => None
      case Some(k) => Some(k + 1)
  }

  /**
   * The handle token `i` yields. A mention other than a lone `@` is kept whole
   * minus `\ ( ) *`; a lone `@` takes the next token, and there is none when
   * it is the last one (Rust's index panic). A profile link yields its fourth
   * `/`-piece, and one with fewer than three `/` is a parse error.
   */
  function HandleAt(parts: seq<string>, i: nat): (r: Result<string, Failure>)
    requires i < |parts| && IsCue(parts[i])
    ensures r.Failure? <==>
      (parts[i] == "@" && i == |parts| - 1)
      || (!IsMention(parts[i]) && Text.Count(parts[i], '/') < 3)
    ensures r.Failure? && IsMention(parts[i]) ==> r.error == OutOfBounds(i + 1, |parts|)
    ensures r.Failure? && !IsMention(parts[i]) ==> r.error == Custom(ParseError(parts[i]))
    ensures r.Success? && IsMention(parts[i]) && parts[i] != "@" ==> r.value == Text.Strip(parts[i])
    ensures r.Success? && parts[i] == "@" ==> i + 1 < |parts| && r.value == "@" + Text.Strip(parts[i + 1])
    ensures r.Success? && !IsMention(parts[i]) ==>
      var segments := Text.Segments(parts[i], '/');
      |segments| >= 4 && r.value == "@" + Text.Strip(segments[3])
    ensures r.Success? ==> '@' in r.value
    ensures r.Success? && (parts[i] == "@" || !IsMention(parts[i])) ==> r.value[0] == '@'
    ensures r.Success? && IsMention(parts[i]) && parts[i] != "@" ==>
      forall c :: c in r.value <==> c in parts[i] && !Text.IsStripped(c)
    ensures r.Success? && (forall k :: 0 <= k < |parts| ==> Text.DelimiterFree(parts[k])) ==>
      Clean(r.value)
  {
    var token := parts[i];
    Text.SegmentsCount(token, '/');
    if IsMention(token) then
      if token != "@" then
        StripClean(token);
        Success(Text.Strip(token))
      else if i + 1 < |parts| then
        StripClean(parts[i + 1]);
        Success("@" + Text.Strip(parts[i + 1]))
      else
        Failure(OutOfBounds(i + 1, |parts|))
    else
      var segments := Text.Segments(token, '/');
      if |segments| >= 4 then
        Text.SegmentsChars(token, '/');
        PieceDelimiterFree(token, segments[3]);
        StripClean(segments[3]);
        Success("@" + Text.Strip(segments[3]))
      else
        Failure(Custom(ParseError(token)))
  }

  /** What one comment contributes: nothing, one handle, or the run's failure. */
  function CommentHandle(comment: string): (r: Result<Option<string>, Failure>)
    ensures r.Success? && r.value.None? <==>
      forall k :: 0 <= k < |Text.Split(comment)| ==> !IsCue(Text.Split(comment)[k])
    ensures r.Success? && r.value.Some? ==> '@' in r.value.value && Clean(r.value.value)
  {
    var parts := Text.Split(comment);
    var cue := FirstCue(parts);
    if cue.None? then Success(None)
    else
      assert parts == Text.Split(comment);
      assert cue.value < |parts| && IsCue(parts[cue.value]);
      var h := HandleAt(parts, cue.value);
      if h.Success? then Success(Some(h.value)) else Failure(h.error)
  }

  /** What one comment does to the handles gathered so far. */
  function Step(acc: Result<seq<string>, Failure>, outcome: Result<Option<string>, Failure>): Result<seq<string>, Failure> {
    match acc
    case Failure(e) => Failure(e)
    case Success(handles) =>
      match outcome
      case Failure(e) => Failure(e)
      case Success(None) => Success(handles)
      case Success(Some(h)) => Success(handles + [h])
  }

  /**
   * The per-comment outcomes folded in order: the handles found, or the
   * first failure.
   */
  function Gather(outcomes: seq<Result<Option<string>, Failure>>): (r: Result<seq<string>, Failure>)
    ensures r.Success? ==> |r.value| <= |outcomes|
    ensures r.Success? && (forall i :: 0 <= i < |outcomes| && outcomes[i].Success? && outcomes[i].value.Some? ==>
        Clean(outcomes[i].value.value)) ==>
      forall k :: 0 <= k < |r.value| ==> Clean(r.value[k])
  {
    if outcomes == [] then Success([])
    else Step(Gather(outcomes[..|outcomes| - 1]), outcomes[|outcomes| - 1])
  }

  /** Once a prefix of the outcomes fails, the whole fold fails the same way. */
  lemma {:induction false} GatherFailurePersists(outcomes: seq<Result<Option<string>, Failure>>, k: nat)
    requires k <= |outcomes| && Gather(outcomes[..k]).Failure?
    ensures Gather(outcomes) == Gather(outcomes[..k])
    decreases |outcomes|
  {
    if k < |outcomes| {
      var init := outcomes[..|outcomes| - 1];
      assert init[..k] == outcomes[..k];
      GatherFailurePersists(init, k);
    } else {
      assert outcomes[..k] == outcomes;
    }
  }

  /** The fold fails exactly when some outcome fails, and then as the first one does. */
  lemma {:induction false} GatherFailure(outcomes: seq<Result<Option<string>, Failure>>)
    ensures Gather(outcomes).Failure? <==> exists i :: 0 <= i < |outcomes| && outcomes[i].Failure?
    ensures Gather(outcomes).Failure? ==>
      exists i :: 0 <= i < |outcomes| && outcomes[i] == Failure(Gather(outcomes).error)
        && forall j :: 0 <= j < i ==> outcomes[j].Success?
  {
    if outcomes != [] {
      var init := outcomes[..|outcomes| - 1];
      GatherFailure(init);
      assert forall i :: 0 <= i < |init| ==> init[i] == outcomes[i];
    }
  }

  /** On success, the fold holds exactly the handles of the outcomes. */
  lemma {:induction false} GatherMembers(outcomes: seq<Result<Option<string>, Failure>>)
    requires Gather(outcomes).Success?
    ensures forall h :: h in Gather(outcomes).value <==>
      exists i :: 0 <= i < |outcomes| && outcomes[i] == Success(Some(h))
  {
    if outcomes != [] {
      var init := outcomes[..|outcomes| - 1];
      GatherMembers(init);
      assert forall i :: 0 <= i < |init| ==> init[i] == outcomes[i];
    }
  }

  /** The outcome of every comment, in order. */
  function Outcomes(comments: seq<string>): (r: seq<Result<Option<string>, Failure>>)
    ensures |r| == |comments|
    ensures forall i :: 0 <= i < |comments| ==> r[i] == CommentHandle(comments[i])
  {
    seq(|comments|, i requires 0 <= i < |comments| => CommentHandle(comments[i]))
  }

  /**
   * The handles of `comments` in comment order before sorting, or the
   * failure of the first comment that fails.
   */
  function Collect(comments: seq<string>): (r: Result<seq<string>, Failure>)
    ensures r.Success? ==> |r.value| <= |comments|
    ensures r.Success? ==> forall k :: 0 <= k < |r.value| ==> Clean(r.value[k])
  {
    Gather(Outcomes(comments))
  }

  /** The outer loop's step: one more comment folded in. */
  lemma {:induction false} CollectNext(comments: seq<string>, c: nat)
    requires c < |comments|
    ensures Collect(comments[..c + 1]) == Step(Collect(comments[..c]), CommentHandle(comments[c]))
  {
    var o := Outcomes(comments[..c + 1]);
    assert o[..c] == Outcomes(comments[..c]);
  }

  /** Once a prefix of the comments fails, the whole run fails the same way. */
  lemma {:induction false} CollectFailurePersists(comments: seq<string>, k: nat)
    requires k <= |comments| && Collect(comments[..k]).Failure?
    ensures Collect(comments) == Collect(comments[..k])
  {
    assert Outcomes(comments)[..k] == Outcomes(comments[..k]);
    GatherFailurePersists(Outcomes(comments), k);
  }

  /**
   * The run fails exactly when some comment fails, and then with the failure
   * of the first comment that does.
   */
  lemma {:induction false} CollectFailure(comments: seq<string>)
    ensures Collect(comments).Failure? <==>
      exists i :: 0 <= i < |comments| && CommentHandle(comments[i]).Failure?
    ensures Collect(comments).Failure? ==>
      exists i :: 0 <= i < |comments| && CommentHandle(comments[i]) == Failure(Collect(comments).error)
        && forall j :: 0 <= j < i ==> CommentHandle(comments[j]).Success?
  {
    GatherFailure(Outcomes(comments));
  }

  /** On success, the handles are exactly those the comments contribute. */
  lemma {:induction false} CollectMembers(comments: seq<string>)
    requires Collect(comments).Success?
    ensures forall h :: h in Collect(comments).value <==>
      exists i :: 0 <= i < |comments| && CommentHandle(comments[i]) == Success(Some(h))
  {
    GatherMembers(Outcomes(comments));
  }

  /**
   * What `get_instagrams` promises: it fails as the first failing comment
   * does; otherwise it returns the comments' handles sorted, without
   * repeats, at most one per comment, each free of delimiters and `\ ( ) *`.
   */
  ghost predicate Extracted(comments: seq<string>, r: Result<seq<string>, Failure>) {
    && (Collect(comments).Failure? ==> r == Failure(Collect(comments).error))
    && (Collect(comments).Success? ==>
          && r.Success?
          && Ordering.StrictlyIncreasing(r.value)
          && (forall h :: h in r.value <==> h in Collect(comments).value))
    && (r.Success? ==> |r.value| <= |comments|)
    && (r.Success? ==> forall k :: 0 <= k < |r.value| ==> Clean(r.value[k]))
  }

  /** A comment that fails after the ones before it succeeded ends the run with its failure. */
  lemma {:induction false} FailureExtracted(comments: seq<string>, c: nat, e: Failure)
    requires c < |comments| && Collect(comments[..c]).Success?
    requires CommentHandle(comments[c]) == Failure(e)
    ensures Extracted(comments, Failure(e))
  {
    CollectNext(comments, c);
    CollectFailurePersists(comments, c + 1);
  }

  /** The gathered handles, sorted and without repeats, are what the run returns. */
  lemma {:induction false} SuccessExtracted(comments: seq<string>, handles: seq<string>, d: seq<string>)
    requires Collect(comments) == Success(handles)
    requires Ordering.StrictlyIncreasing(d) && |d| <= |handles|
    requires forall x :: x in d <==> x in handles
    ensures Extracted(comments, Success(d))
  {
    assert forall h :: h in handles ==> Clean(h);
  }

  /** `get_instagrams`, with its nested loops, sort and dedup. */
  method GetInstagrams(comments: seq<string>) returns (r: Result<seq<string>, Failure>)
    ensures Extracted(comments, r)
  {
    var usernames: seq<string> := [];
    for c := 0 to |comments|
      invariant Collect(comments[..c]) == Success(usernames)
    {
      var parts := Text.Split(comments[c]);
      ghost var before := usernames;
      ghost var found := false;
      for i := 0 to |parts|
        invariant !found
        invariant usernames == before
        invariant forall j :: 0 <= j < i ==> !IsCue(parts[j])
      {
        if '@' in parts[i] {
          assert FirstCue(parts) == Some(i);
          if parts[i] != "@" {
            usernames := usernames + [Text.Strip(parts[i])];
          } else if i + 1 < |parts| {
            usernames := usernames + ["@" + Text.Strip(parts[i + 1])];
          } else {
            // Rust indexes parts[i + 1] here and panics.
            FailureExtracted(comments, c, OutOfBounds(i + 1, |parts|));
            return Failure(OutOfBounds(i + 1, |parts|));
          }
          found := true;
          break;
        } else if Text.Contains(parts[i], INSTAGRAM) {
          assert FirstCue(parts) == Some(i);
          var segments := Text.Segments(parts[i], '/');
          if |segments| < 4 {
            FailureExtracted(comments, c, Custom(ParseError(parts[i])));
            return Failure(Custom(ParseError(parts[i])));
          }
          usernames := usernames + ["@" + Text.Strip(segments[3])];
          found := true;
          break;
        }
      }
      if !found {
        assert FirstCue(parts) == None;
      }
      CollectNext(comments, c);
    }
    assert comments[..|comments|] == comments;
    var deduped := Ordering.SortDedup(usernames);
    SuccessExtracted(comments, usernames, deduped);
    return Success(deduped);
  }
}
