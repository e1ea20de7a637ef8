/**
 * What the extractor does with typical comments, stated for every choice of
 * the words involved: a bracketed mention, a lone `@` before the name, a
 * lone `@` at the very end, a profile link, a bare link to the site, an
 * empty comment, and the same handle given twice.
 */
module Scenarios {
  import opened Wrappers
  import opened Records
  import Text
  import Ordering
  import Handles

  /** A plain word: one token that neither mentions nor links. */
  predicate Word(w: string) {
    w != [] && Text.DelimiterFree(w) && !Handles.IsCue(w)
  }

  /**
   * `word [m]` with a mention `m` other than a lone `@`: the brackets are
   * delimiters, and `m` is the handle whole (an `a@b` too), minus `\ ( ) *`.
   */
  lemma {:induction false} BracketedMention(w: string, m: string)
    requires Word(w)
    requires m != [] && Text.DelimiterFree(m) && Handles.IsMention(m) && m != "@"
    ensures Text.Split(w + " [" + m + "]") == [w, m, ""]
    ensures Handles.CommentHandle(w + " [" + m + "]") == Success(Some(Text.Strip(m)))
  {
    var parts, runs := [w, m, ""], [" [", "]"];
    assert Text.IsRun(runs[0]) && Text.IsRun(runs[1]);
    assert Text.Interleave(parts[1..], runs[1..]) == m + "]" + "";
    assert Text.Interleave(parts, runs) == w + " [" + m + "]";
    Text.SplitInterleave(parts, runs);
    assert Handles.FirstCue(parts) == Some(1);
  }

  /** A leading run of delimiters leaves an empty first piece. */
  lemma {:induction false} LeadingRun(w: string)
    requires w != [] && Text.DelimiterFree(w)
    ensures Text.Split(" " + w) == ["", w]
  {
    var parts, runs := ["", w], [" "];
    assert Text.IsRun(runs[0]);
    assert Text.Interleave(parts, runs) == " " + w;
    Text.SplitInterleave(parts, runs);
  }

  /** `@ name rest`: a lone `@` takes the token after it, prefixed by `@`. */
  lemma {:induction false} LoneMention(name: string, rest: string)
    requires name != [] && Text.DelimiterFree(name) && Text.DelimiterFree(rest)
    ensures Handles.CommentHandle("@ " + name + " " + rest) == Success(Some("@" + Text.Strip(name)))
  {
    var parts, runs := ["@", name, rest], [" ", " "];
    assert Text.IsRun(runs[0]);
    assert Text.Interleave(parts[1..], runs[1..]) == name + " " + rest;
    assert Text.Interleave(parts, runs) == "@ " + name + " " + rest;
    Text.SplitInterleave(parts, runs);
    assert Handles.FirstCue(parts) == Some(0);
    assert Handles.HandleAt(parts, 0) == Success("@" + Text.Strip(name));
  }

  /** `word @`: a lone `@` as the last token indexes past the end. */
  lemma {:induction false} TrailingLoneMention(w: string)
    requires Word(w)
    ensures Handles.CommentHandle(w + " @") == Failure(OutOfBounds(2, 2))
  {
    var parts, runs := [w, "@"], [" "];
    assert Text.IsRun(runs[0]);
    assert Text.Interleave(parts, runs) == w + " @";
    Text.SplitInterleave(parts, runs);
    assert Handles.FirstCue(parts) == Some(1);
  }

  /** The site address has no `@` and no delimiter. */
  lemma {:induction false} SiteChars()
    ensures forall k :: 0 <= k < |Handles.INSTAGRAM| ==>
      Handles.INSTAGRAM[k] != '@' && !Text.IsDelimiter(Handles.INSTAGRAM[k])
  {
  }

  /**
   * The site address is `https:`, two `/` and the host. The host comes in as
   * a parameter so that the string literal is only compared, never unfolded
   * character by character.
   */
  lemma {:induction false} SitePieces(host: string)
    requires host == "www.instagram.com"
    ensures Handles.INSTAGRAM == "https:" + ['/'] + ([] + ['/'] + host)
    ensures '/' !in host
  {
    HostHasNoSlash(host);
  }

  lemma {:induction false} HostHasNoSlash(host: string)
    requires host == "www.instagram.com"
    ensures '/' !in host
  {
    assert forall k :: 0 <= k < |host| ==> host[k] != '/';
  }

  /** A token that begins with the site address is a link token. */
  lemma {:induction false} SiteIsLink(t: string)
    requires |t| >= |Handles.INSTAGRAM| && t[..|Handles.INSTAGRAM|] == Handles.INSTAGRAM
    ensures Handles.IsProfileLink(t)
  {
    assert Text.StartsWith(t[0..], Handles.INSTAGRAM);
  }

  /** A token that begins with the site address and then has no `@` and no delimiter. */
  lemma {:induction false} SiteToken(tail: string)
    requires '@' !in tail && Text.DelimiterFree(tail)
    ensures var t := Handles.INSTAGRAM + tail;
      '@' !in t && Text.DelimiterFree(t) && Handles.IsProfileLink(t)
      && Text.Split(t) == [t] && Handles.FirstCue([t]) == Some(0)
  {
    var t := Handles.INSTAGRAM + tail;
    SiteChars();
    assert forall k :: 0 <= k < |t| ==> t[k] == if k < |Handles.INSTAGRAM| then Handles.INSTAGRAM[k] else tail[k - |Handles.INSTAGRAM|];
    assert t[..|Handles.INSTAGRAM|] == Handles.INSTAGRAM;
    SiteIsLink(t);
    Text.SplitDelimiterFree(t);
  }

  /** Three pieces without `/`, glued with `/`, split back into themselves. */
  lemma {:induction false} ThreeSegments(a: string, b: string, c: string)
    requires '/' !in a && '/' !in b && '/' !in c
    ensures var r := Text.Segments(a + ['/'] + (b + ['/'] + c), '/');
      |r| == 3 && r[0] == a && r[1] == b && r[2] == c
  {
    Text.SegmentsWithout(c, '/');
    Text.SegmentsAfterSeparator(b, '/', c);
    Text.SegmentsAfterSeparator(a, '/', b + ['/'] + c);
  }

  /** Four pieces without `/`, each followed by `/`, split into them and an empty last piece. */
  lemma {:induction false} FiveSegments(a: string, b: string, c: string, d: string)
    requires '/' !in a && '/' !in b && '/' !in c && '/' !in d
    ensures var r := Text.Segments(a + ['/'] + (b + ['/'] + (c + ['/'] + (d + ['/'] + []))), '/');
      |r| == 5 && r[0] == a && r[1] == b && r[2] == c && r[3] == d && r[4] == []
  {
    var r2 := c + ['/'] + (d + ['/'] + []);
    ThreeSegments(c, d, []);
    Text.SegmentsAfterSeparator(b, '/', r2);
    Text.SegmentsAfterSeparator(a, '/', b + ['/'] + r2);
  }

  /** `/name/` has no `@` and no delimiter when `name` has none. */
  lemma {:induction false} SlashWrapped(name: string)
    requires Text.DelimiterFree(name) && '@' !in name
    ensures '@' !in "/" + name + "/" && Text.DelimiterFree("/" + name + "/")
  {
    var tail := "/" + name + "/";
    assert forall k :: 0 <= k < |tail| ==> tail[k] == if k == 0 || k == |tail| - 1 then '/' else name[k - 1];
  }

  /**
   * A comment that is only a profile link `https://www.instagram.com/name/`
   * gives `@name`, the fourth `/`-piece.
   */
  lemma {:induction false} ProfileLink(name: string)
    requires name != [] && Text.DelimiterFree(name) && '/' !in name && '@' !in name
    ensures Handles.CommentHandle(Handles.INSTAGRAM + ("/" + name + "/")) == Success(Some("@" + Text.Strip(name)))
  {
    var host := "www.instagram.com";
    SitePieces(host);
    assert Handles.INSTAGRAM + ("/" + name + "/")
      == "https:" + ['/'] + ([] + ['/'] + (host + ['/'] + (name + ['/'] + [])));
    FiveSegments("https:", [], host, name);
    SlashWrapped(name);
    SiteToken("/" + name + "/");
    assert Handles.HandleAt([Handles.INSTAGRAM + ("/" + name + "/")], 0) == Success("@" + Text.Strip(name));
  }

  /**
   * The site address followed by anything without `/`, `@` or a delimiter
   * (the bare address included) has no profile piece: a parse error naming
   * the token.
   */
  lemma {:induction false} BareSiteFails(tail: string)
    requires '/' !in tail && '@' !in tail && Text.DelimiterFree(tail)
    ensures var t := Handles.INSTAGRAM + tail;
      Handles.CommentHandle(t) == Failure(Custom(ParseError(t)))
  {
    var t := Handles.INSTAGRAM + tail;
    var host := "www.instagram.com";
    SiteToken(tail);
    SitePieces(host);
    assert t == "https:" + ['/'] + ([] + ['/'] + (host + tail));
    ThreeSegments("https:", [], host + tail);
    Text.SegmentsCount(t, '/');
    assert Handles.HandleAt([t], 0) == Failure(Custom(ParseError(t)));
  }

  /** An empty comment is kept by the flattening and contributes nothing. */
  lemma {:induction false} EmptyComment()
    ensures Handles.CommentHandle("") == Success(None)
  {
    Text.SplitDelimiterFree("");
    assert !Handles.IsProfileLink("");
  }

  /** The same handle from two comments appears once in the result. */
  lemma {:induction false} SameHandleTwice(c1: string, c2: string, h: string, r: Result<seq<string>, Failure>)
    requires Handles.CommentHandle(c1) == Success(Some(h))
    requires Handles.CommentHandle(c2) == Success(Some(h))
    requires Handles.Extracted([c1, c2], r)
    ensures r == Success([h])
  {
    var cs := [c1, c2];
    assert forall i :: 0 <= i < |cs| ==> Handles.CommentHandle(cs[i]) == Success(Some(h));
    Handles.CollectFailure(cs);
    Handles.CollectMembers(cs);
    assert forall x :: x in Handles.Collect(cs).value <==> x == h;
    Ordering.StrictlyIncreasingUnique(r.value, [h]);
  }
}
