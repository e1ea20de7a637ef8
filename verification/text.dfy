/**
 * The string operations the extractor relies on: substring search
 * (`str::contains`), the regular-expression split on runs of `[`, `]`,
 * newline and space, the removal of the characters `\ ( ) *`, and the
 * split of a token on `/`.
 */
module Text {

  /* ---------------- substring search ---------------- */

  predicate StartsWith(s: string, p: string) {
    |p| <= |s| && s[..|p|] == p
  }

  /** `s.contains(p)`: `p` occurs in `s` at some offset. */
  function Contains(s: string, p: string): (b: bool)
    ensures b <==> exists i :: 0 <= i <= |s| && StartsWith(s[i..], p)
    decreases |s|
  {
    if StartsWith(s, p) then
      assert s[0..] == s;
      true
    else if s == [] then
      false
    else
      var b := Contains(s[1..], p);
      assert forall i :: 1 <= i <= |s| ==> s[1..][i - 1..] == s[i..];
      assert s[0..] == s;
      b
  }

  /* ---------------- the delimiter split ---------------- */

  /** The characters of the class `[\[\]\n ]`. */
  predicate IsDelimiter(c: char) {
    c == '[' || c == ']' || c == '\n' || c == ' '
  }

  predicate DelimiterFree(t: string) {
    forall k :: 0 <= k < |t| ==> !IsDelimiter(t[k])
  }

  /** Index of the first delimiter of `s`, or `|s|` when there is none. */
  function FirstDelimiter(s: string): (i: nat)
    ensures i <= |s|
    ensures DelimiterFree(s[..i])
    ensures i < |s| ==> IsDelimiter(s[i])
  {
    if s == [] || IsDelimiter(s[0]) then 0
    else
      var j := FirstDelimiter(s[1..]);
      assert s[..1 + j] == [s[0]] + s[1..][..j];
      1 + j
  }

  /** Length of the run of delimiters that `s` starts with. */
  function RunLength(s: string): (n: nat)
    ensures n <= |s|
    ensures forall k :: 0 <= k < n ==> IsDelimiter(s[k])
    ensures n < |s| ==> !IsDelimiter(s[n])
  {
    if s == [] || !IsDelimiter(s[0]) then 0 else 1 + RunLength(s[1..])
  }

  /**
   * `Regex::split` with the pattern `[\[\]\n ]+`: the pieces of `s` between
   * maximal runs of delimiters. A leading or trailing run leaves an empty
   * piece, and the empty string gives one empty piece.
   */
  function Split(s: string): (parts: seq<string>)
    ensures |parts| >= 1
    ensures forall k :: 0 <= k < |parts| ==> DelimiterFree(parts[k])
    ensures s == [] ==> parts == [[]]
    ensures s != [] && !IsDelimiter(s[0]) ==> parts[0] != []
    ensures forall k :: 0 < k < |parts| - 1 ==> parts[k] != []
    decreases |s|
  {
    var i := FirstDelimiter(s);
    if i == |s| then
      assert s[..i] == s;
      [s]
    else
      var n := RunLength(s[i..]);
      var rest := Split(s[i..][n..]);
      assert rest == [] + rest;
      [s[..i]] + rest
  }

  /** Joins `parts` with `sep` between consecutive pieces. */
  function Join(parts: seq<string>, sep: string): string {
    if parts == [] then []
    else if |parts| == 1 then parts[0]
    else parts[0] + sep + Join(parts[1..], sep)
  }

  /**
   * A character-by-character reference for the split: every maximal run of
   * delimiters replaced by a single space.
   */
  function Collapse(s: string): string
    decreases |s|
  {
    if s == [] then []
    else if IsDelimiter(s[0]) then
      var n := RunLength(s);
      [' '] + Collapse(s[n..])
    else [s[0]] + Collapse(s[1..])
  }

  lemma {:induction false} CollapseDelimiterFree(a: string, b: string)
    requires DelimiterFree(a)
    ensures Collapse(a + b) == a + Collapse(b)
    decreases |a|
  {
    if a != [] {
      assert (a + b)[1..] == a[1..] + b;
      CollapseDelimiterFree(a[1..], b);
    } else {
      assert a + b == b;
    }
  }

  /** Joining a piece in front of a non-empty list puts `sep` after it. */
  lemma {:induction false} JoinCons(head: string, rest: seq<string>, sep: string)
    requires rest != []
    ensures Join([head] + rest, sep) == head + sep + Join(rest, sep)
  {
    assert ([head] + rest)[1..] == rest;
  }

  /** One step of the split: the text before the first run, then the rest. */
  lemma {:induction false} SplitStep(s: string) returns (head: string, tail: string)
    requires FirstDelimiter(s) < |s|
    ensures |head| <= |s| && s == head + s[|head|..] && DelimiterFree(head)
    ensures Split(s) == [head] + Split(tail)
    ensures Collapse(s[|head|..]) == [' '] + Collapse(tail)
    ensures |tail| < |s|
  {
    var i := FirstDelimiter(s);
    var suffix := s[i..];
    head, tail := s[..i], suffix[RunLength(suffix)..];
    assert s == head + s[|head|..];
  }

  /**
   * The split loses nothing but the delimiter runs: joining its pieces with
   * one space gives `s` with each run collapsed to one space.
   */
  lemma {:induction false} SplitJoin(s: string)
    ensures Join(Split(s), " ") == Collapse(s)
    decreases |s|
  {
    if FirstDelimiter(s) == |s| {
      assert Split(s) == [s] by {
        assert s[..|s|] == s;
      }
      CollapseDelimiterFree(s, []);
      assert s + [] == s;
    } else {
      var head, tail := SplitStep(s);
      SplitJoin(tail);
      JoinCons(head, Split(tail), " ");
      CollapseDelimiterFree(head, s[|head|..]);
    }
  }

  /** A string without delimiters is one piece. */
  lemma {:induction false} SplitDelimiterFree(s: string)
    requires DelimiterFree(s)
    ensures Split(s) == [s]
  {
    assert s[..|s|] == s;
  }

  lemma {:induction false} FirstDelimiterAt(s: string, i: nat)
    requires i < |s| && DelimiterFree(s[..i]) && IsDelimiter(s[i])
    ensures FirstDelimiter(s) == i
  {
  }

  lemma {:induction false} RunLengthOf(run: string, rest: string)
    requires forall k :: 0 <= k < |run| ==> IsDelimiter(run[k])
    requires rest == [] || !IsDelimiter(rest[0])
    ensures RunLength(run + rest) == |run|
    decreases |run|
  {
    if run == [] {
      assert run + rest == rest;
    } else {
      assert (run + rest)[1..] == run[1..] + rest;
      RunLengthOf(run[1..], rest);
    }
  }

  /**
   * A delimiter-free `head`, then a run of delimiters, then text that does
   * not start with one: `head` is the first piece and the split goes on
   * with `rest`.
   */
  lemma {:induction false} SplitAfterRun(head: string, run: string, rest: string)
    requires DelimiterFree(head)
    requires run != [] && forall k :: 0 <= k < |run| ==> IsDelimiter(run[k])
    requires rest == [] || !IsDelimiter(rest[0])
    ensures Split(head + run + rest) == [head] + Split(rest)
  {
    var s := head + run + rest;
    assert s[..|head|] == head && s[|head|] == run[0];
    FirstDelimiterAt(s, |head|);
    assert s[|head|..] == run + rest;
    RunLengthOf(run, rest);
    assert (run + rest)[|run|..] == rest;
  }

  /** A non-empty run of delimiters. */
  predicate IsRun(run: string) {
    run != [] && forall k :: 0 <= k < |run| ==> IsDelimiter(run[k])
  }

  /** `parts[0] + runs[0] + parts[1] + ... + parts[|parts| - 1]`. */
  function Interleave(parts: seq<string>, runs: seq<string>): string
    requires |parts| >= 1 && |runs| == |parts| - 1
  {
    if |parts| == 1 then parts[0]
    else parts[0] + runs[0] + Interleave(parts[1..], runs[1..])
  }

  lemma {:induction false} InterleaveHead(parts: seq<string>, runs: seq<string>)
    requires |parts| >= 1 && |runs| == |parts| - 1 && parts[0] != []
    ensures Interleave(parts, runs) != [] && Interleave(parts, runs)[0] == parts[0][0]
  {
  }

  /**
   * The split undoes the gluing of delimiter-free pieces with delimiter
   * runs, as long as no piece but the first and the last is empty: the
   * pieces are exactly what the split recovers.
   */
  lemma {:induction false} SplitInterleave(parts: seq<string>, runs: seq<string>)
    requires |parts| >= 1 && |runs| == |parts| - 1
    requires forall k :: 0 <= k < |parts| ==> DelimiterFree(parts[k])
    requires forall k :: 0 < k < |parts| - 1 ==> parts[k] != []
    requires forall k :: 0 <= k < |runs| ==> IsRun(runs[k])
    ensures Split(Interleave(parts, runs)) == parts
  {
    if |parts| == 1 {
      SplitDelimiterFree(parts[0]);
      assert parts == [parts[0]];
    } else {
      var tailParts, tailRuns := parts[1..], runs[1..];
      assert forall k :: 0 <= k < |tailParts| ==> tailParts[k] == parts[k + 1];
      assert forall k :: 0 <= k < |tailRuns| ==> tailRuns[k] == runs[k + 1];
      SplitInterleave(tailParts, tailRuns);
      SplitInterleaveStep(parts, runs);
    }
  }

  /** The step of `SplitInterleave`: the first piece and run come off the front. */
  lemma {:induction false} SplitInterleaveStep(parts: seq<string>, runs: seq<string>)
    requires |parts| >= 2 && |runs| == |parts| - 1
    requires DelimiterFree(parts[0]) && IsRun(runs[0])
    requires parts[1] != [] || |parts| == 2
    requires parts[1] != [] ==> !IsDelimiter(parts[1][0])
    requires Split(Interleave(parts[1..], runs[1..])) == parts[1..]
    ensures Split(Interleave(parts, runs)) == parts
  {
    var rest := Interleave(parts[1..], runs[1..]);
    assert Interleave(parts, runs) == parts[0] + runs[0] + rest;
    if parts[1] != [] {
      InterleaveHead(parts[1..], runs[1..]);
    } else {
      assert rest == parts[1];
    }
    SplitAfterRun(parts[0], runs[0], rest);
    assert parts == [parts[0]] + parts[1..];
  }

  /* ---------------- removal of `\ ( ) *` ---------------- */

  /** The characters of the class `[\\()*]`. */
  predicate IsStripped(c: char) {
    c == '\\' || c == '(' || c == ')' || c == '*'
  }

  /** `Regex::replace_all` of `[\\()*]` by the empty string. */
  function Strip(s: string): (r: string)
    ensures |r| <= |s|
    ensures forall k :: 0 <= k < |r| ==> !IsStripped(r[k])
    ensures forall c :: c in r <==> c in s && !IsStripped(c)
  {
    if s == [] then []
    else
      var rest := Strip(s[1..]);
      assert forall c :: c in s <==> c == s[0] || c in s[1..];
      if IsStripped(s[0]) then rest else [s[0]] + rest
  }

  /** Stripping twice is stripping once. */
  lemma {:induction false} StripIdempotent(s: string)
    ensures Strip(Strip(s)) == Strip(s)
  {
    if s != [] {
      StripIdempotent(s[1..]);
      if !IsStripped(s[0]) {
        assert ([s[0]] + Strip(s[1..]))[1..] == Strip(s[1..]);
      }
    }
  }

  /** One character is dropped when it is one of `\ ( ) *` and kept otherwise. */
  lemma {:induction false} StripChar(c: char)
    ensures Strip([c]) == if IsStripped(c) then [] else [c]
  {
  }

  /**
   * Stripping works piece by piece: the kept characters stay in their order
   * and every occurrence of them is kept. With `StripChar` this fixes
   * `Strip` on every string.
   */
  lemma {:induction false} StripAppend(a: string, b: string)
    ensures Strip(a + b) == Strip(a) + Strip(b)
    decreases |a|
  {
    if a == [] {
      assert a + b == b;
    } else {
      assert (a + b)[0] == a[0] && (a + b)[1..] == a[1..] + b;
      StripAppend(a[1..], b);
    }
  }

  /** Strings without any of `\ ( ) *` are left untouched. */
  lemma {:induction false} StripIdentity(s: string)
    requires forall k :: 0 <= k < |s| ==> !IsStripped(s[k])
    ensures Strip(s) == s
  {
    if s != [] {
      StripIdentity(s[1..]);
      assert [s[0]] + s[1..] == s;
    }
  }

  /* ---------------- the split on a single character ---------------- */

  /** Index of the first `c` in `s`, or `|s|` when there is none. */
  function IndexOf(s: string, c: char): (i: nat)
    ensures i <= |s|
    ensures c !in s[..i]
    ensures i < |s| ==> s[i] == c
  {
    if s == [] || s[0] == c then 0
    else
      var j := IndexOf(s[1..], c);
      assert s[..1 + j] == [s[0]] + s[1..][..j];
      1 + j
  }

  /** `s.split(sep)` for a one-character separator: always at least one piece. */
  function Segments(s: string, sep: char): (r: seq<string>)
    ensures |r| >= 1
    ensures forall k :: 0 <= k < |r| ==> sep !in r[k]
    decreases |s|
  {
    var i := IndexOf(s, sep);
    if i == |s| then
      assert s[..i] == s;
      [s]
    else
      [s[..i]] + Segments(s[i + 1..], sep)
  }

  /** `head`, a separator, then `rest`: `head` is the first piece. */
  lemma {:induction false} SegmentsAfterSeparator(head: string, sep: char, rest: string)
    requires sep !in head
    ensures Segments(head + [sep] + rest, sep) == [head] + Segments(rest, sep)
  {
    var s := head + [sep] + rest;
    var i := IndexOf(s, sep);
    assert s[..|head|] == head;
    assert s[|head|] == sep;
    assert s[i + 1..] == rest;
  }

  /** A string without the separator is one piece. */
  lemma {:induction false} SegmentsWithout(s: string, sep: char)
    requires sep !in s
    ensures Segments(s, sep) == [s]
  {
    assert s[..|s|] == s;
  }

  /** Number of occurrences of `c` in `s`. */
  function Count(s: string, c: char): nat {
    if s == [] then 0 else (if s[0] == c then 1 else 0) + Count(s[1..], c)
  }

  lemma {:induction false} CountAppend(a: string, b: string, c: char)
    ensures Count(a + b, c) == Count(a, c) + Count(b, c)
    decreases |a|
  {
    if a == [] {
      assert a + b == b;
    } else {
      assert (a + b)[1..] == a[1..] + b;
      CountAppend(a[1..], b, c);
    }
  }

  lemma {:induction false} CountAbsent(s: string, c: char)
    requires c !in s
    ensures Count(s, c) == 0
  {
    if s != [] {
      CountAbsent(s[1..], c);
    }
  }

  /** Without a separator, the split gives the whole string. */
  lemma {:induction false} SegmentsNone(s: string, sep: char)
    requires IndexOf(s, sep) == |s|
    ensures Segments(s, sep) == [s]
  {
    assert s[..|s|] == s;
  }

  /**
   * `s` is what comes before index `i`, the character there, and what
   * follows, in both groupings. A helper for the solver: stating both at once
   * keeps the proofs that use it stable.
   */
  lemma {:induction false} Around(s: string, i: nat)
    requires i < |s|
    ensures s == s[..i] + ([s[i]] + s[i + 1..]) && s == s[..i] + [s[i]] + s[i + 1..]
  {
    assert s == s[..i] + ([s[i]] + s[i + 1..]);
  }

  /** One step of the split on `sep`: the text before the first `sep`, then the rest. */
  lemma {:induction false} SegmentsStep(s: string, sep: char) returns (head: string, tail: string)
    requires IndexOf(s, sep) < |s|
    ensures s == head + ([sep] + tail) && s == head + [sep] + tail && sep !in head
    ensures Segments(s, sep) == [head] + Segments(tail, sep)
  {
    var i := IndexOf(s, sep);
    head, tail := s[..i], s[i + 1..];
    Around(s, i);
  }

  /** The pieces are the text between separators: joined with it, they give back `s`. */
  lemma {:induction false} SegmentsJoin(s: string, sep: char)
    ensures Join(Segments(s, sep), [sep]) == s
    decreases |s|
  {
    if IndexOf(s, sep) == |s| {
      SegmentsNone(s, sep);
    } else {
      var head, tail := SegmentsStep(s, sep);
      SegmentsJoin(tail, sep);
      JoinCons(head, Segments(tail, sep), [sep]);
    }
  }

  /** There is one more piece than there are separators. */
  lemma {:induction false} SegmentsCount(s: string, sep: char)
    ensures |Segments(s, sep)| == Count(s, sep) + 1
    decreases |s|
  {
    if IndexOf(s, sep) == |s| {
      SegmentsNone(s, sep);
      CountAbsent(s, sep);
    } else {
      var head, tail := SegmentsStep(s, sep);
      SegmentsCount(tail, sep);
      CountAbsent(head, sep);
      CountAppend(head, [sep] + tail, sep);
      assert ([sep] + tail)[1..] == tail;
    }
  }

  /** Every character of every piece comes from `s`. */
  lemma {:induction false} SegmentsChars(s: string, sep: char)
    ensures forall k, j :: 0 <= k < |Segments(s, sep)| && 0 <= j < |Segments(s, sep)[k]| ==>
      Segments(s, sep)[k][j] in s
    decreases |s|
  {
    if IndexOf(s, sep) == |s| {
      assert s[..|s|] == s;
    } else {
      var head, tail := SegmentsStep(s, sep);
      SegmentsChars(tail, sep);
      var r, rt := Segments(s, sep), Segments(tail, sep);
      assert forall c :: c in head ==> c in s;
      assert forall c :: c in tail ==> c in s;
      forall k, j | 0 <= k < |r| && 0 <= j < |r[k]|
        ensures r[k][j] in s
      {
        if k == 0 {
          assert r[k][j] in head;
        } else {
          assert r[k] == rt[k - 1];
          assert r[k][j] in tail;
        }
      }
    }
  }
}
