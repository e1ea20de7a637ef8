# FriFinder, modelled in Dafny

FriFinder collects the Instagram handles people post in the weekly
"Follow Friday" thread of the r/Instagram forum. A run has five steps:

1. Fetch the subreddit listing.
2. Pick the stickied post whose title contains `Follow Friday`.
3. Fetch that post's thread.
4. Flatten the thread's comment listing into the comment bodies.
5. Pull at most one handle out of each comment, then sort the handles and drop repeats.

This project models steps 2, 4 and 5, together with the pipeline that chains them.

- **Records** (`records.dfy`).
  - The decoded JSON records, in which every field is an `Option`.
  - The program's error type `CustomError`.
  - `Failure`: every way a run can end early. It is one of:
    - a `CustomError`;
    - a failed request or decoding;
    - the out-of-bounds index of a lone `@` at the end of a comment.
- **Lookup** (`lookup.dfy`).
  - `get_friday_url` as a first-match search over the listing.
  - `get_comments` as a method with the source's loop, proved equal to a flattening function.
- **Text** (`text.dfy`). The string operations the extractor uses:
  - `str::contains`;
  - the split on maximal runs of `[`, `]`, newline and space;
  - the removal of `\ ( ) *`;
  - the split on `/`.

  Each comes with a partner:
  - the delimiter split rejoins to the text with each run collapsed to one space;
  - the split recovers the pieces it was glued from;
  - the `/` split rejoins to its input and has one piece per separator plus one;
  - stripping is idempotent.
- **Handles** (`handles.dfy`).
  - What one comment contributes (`CommentHandle`, built on `FirstCue` and `HandleAt`).
  - A fold (`Gather`, `Collect`) of those contributions in comment order.
  - `get_instagrams` as a method with the source's nested loops and `break`s, proved against that fold.
- **Ordering** (`ordering.dfy`). The string order and the two vector operations `sort` and `dedup`.
- **FriFinder** (`fri_finder.dfy`). The `execute` pipeline up to the list it writes out. The two HTTP requests are function parameters.
- **Scenarios** (`scenarios.dfy`). What extraction does with typical comments, stated for every choice of the words in them:
  - a bracketed mention;
  - a lone `@`, before a name or at the very end;
  - a profile link;
  - a bare link to the site;
  - an empty comment;
  - the same handle given twice.

Behaviour of the code that the model follows:

- A mention token such as `a@b` is kept whole, minus `\ ( ) *`. So not every handle starts with `@`.
- Empty comment bodies are kept, and a comment without a cue contributes nothing.
- The `@` test comes before the link test on the same token.
- A profile link yields its fourth `/`-piece. A link with fewer than three `/` fails the whole run with `ParseError` carrying that token.
- A lone `@` that is the last token of its comment makes Rust index past the end of the token vector and panic (`src/main.rs:146`). The model makes this an explicit failure, `OutOfBounds(i + 1, |parts|)`, and does not impose a precondition.
- Rust's `len() != 1` on a token that contains `@` is modelled as "the token is not exactly `@`". A one-byte string containing `@` can only be `"@"`.
- Rust orders `String`s by their UTF-8 bytes. This is the same as code-point order, which is how Dafny compares `char`s.

Two natural readings of the program's purpose differ from its code, and the model follows the code:

- Not every handle begins with `@`: the code keeps `a@b` whole.
- Bodies are not required to be non-empty: the code collects empty ones too.

## Model

| member | source | states |
|---|---|---|
| Lookup.FirstFridayUrl | src/main.rs:112-122 | `None` exactly when no entry is a stickied `Follow Friday` post with a url; otherwise the url of the first such entry in listing order |
| Lookup.GetFridayUrl | src/main.rs:111-123 | an absent listing `data` or `children` gives `None`; otherwise `None` exactly when no entry qualifies, and `Some` of the first qualifying entry's url |
| Lookup.FirstFridayUrlUnique | src/main.rs:111-123 | the first-match condition names a single url |
| Lookup.UnmarkedEntryNeverMatches | src/main.rs:113-115 | an entry without `stickied` or without `title` never qualifies, because the defaults `false` and `""` never match |
| Lookup.UrlLessFridayPostSkipped | src/main.rs:116-121 | a qualifying post without a url is skipped and the search goes on with the rest of the listing |
| Lookup.Bodies | src/main.rs:127-133 | the flattened list is no longer than the listing, and as long as it when every child has a body |
| Lookup.BodiesAppend | src/main.rs:126-133 | flattening keeps listing order: the bodies of `a + b` are those of `a` followed by those of `b` |
| Lookup.BodiesMembers | src/main.rs:127-133 | a string is flattened exactly when it is the body of some child |
| Lookup.GetComments | src/main.rs:125-135 | `None` exactly when the thread has fewer than two listings or the second lacks `data` or `children`; otherwise the present bodies of the second listing, in order |
| Text.Contains | src/main.rs:148 | `s.contains(p)` holds exactly when `p` occurs in `s` at some offset |
| Text.Split | src/main.rs:139-141 | at least one piece; no piece holds a delimiter; the empty string gives one empty piece; only the first and last pieces can be empty |
| Text.SplitJoin | src/main.rs:139-141 | joining the pieces with one space gives the comment with every delimiter run collapsed to one space |
| Text.SplitInterleave | src/main.rs:139-141 | gluing delimiter-free pieces (none empty but the first and last) with delimiter runs and splitting gives the pieces back |
| Text.SplitDelimiterFree | src/main.rs:141 | text without delimiters is a single token |
| Text.SplitAfterRun | src/main.rs:141 | a delimiter-free head, then a delimiter run, then the rest: the head is the first token and the split goes on with the rest |
| Text.Strip | src/main.rs:143 | removing `\ ( ) *` keeps exactly the other characters and is no longer than its input; with `Text.StripChar` and `Text.StripAppend` the result is fixed on every string |
| Text.StripChar | src/main.rs:143 | a single character is dropped exactly when it is one of `\ ( ) *`, and kept otherwise |
| Text.StripAppend | src/main.rs:145-150 | stripping works piece by piece, so the kept characters stay in their order and every occurrence is kept |
| Text.StripIdempotent | src/main.rs:145 | removing `\ ( ) *` twice is removing them once |
| Text.StripIdentity | src/main.rs:150 | a string without `\ ( ) *` is unchanged |
| Text.Segments | src/main.rs:149 | splitting on `/` gives at least one piece, none holding a `/` |
| Text.SegmentsJoin | src/main.rs:149 | joining the `/`-pieces with `/` gives the token back |
| Text.SegmentsCount | src/main.rs:149 | there is one more `/`-piece than there are `/` in the token |
| Text.SegmentsChars | src/main.rs:149 | every character of every `/`-piece comes from the token |
| Handles.StripClean | src/main.rs:143-150 | a delimiter-free token, stripped, with or without a leading `@`, holds no delimiter and none of `\ ( ) *` |
| Handles.FirstCue | src/main.rs:142-153 | the index of the first token that contains `@` or the profile-link prefix, with no such token before it; `None` when there is none |
| Handles.HandleAt | src/main.rs:144-152 | fails exactly for a lone `@` as the last token (out of bounds at `i + 1`) or for a non-mention link with fewer than three `/` (`ParseError` with the token); otherwise gives the token stripped, or `@` plus the next token stripped, or `@` plus the fourth `/`-piece stripped; the result holds `@` and is clean when the tokens are delimiter-free |
| Handles.CommentHandle | src/main.rs:141-153 | a comment contributes nothing exactly when none of its tokens is a cue; a handle it contributes holds `@` and no delimiter or `\ ( ) *` |
| Handles.Gather | src/main.rs:140-154 | the fold holds at most one handle per comment, and only clean handles when every contributed handle is clean |
| Handles.GatherFailurePersists | src/main.rs:146-149 | once a prefix of the comments has failed, the whole run fails with that failure |
| Handles.GatherFailure | src/main.rs:140-154 | the fold fails exactly when some comment fails, and then with the failure of the first comment that does |
| Handles.GatherMembers | src/main.rs:140-154 | on success the fold holds exactly the handles the comments contribute |
| Handles.Collect | src/main.rs:138-154 | the handles before sorting: at most one per comment, each clean |
| Handles.CollectNext | src/main.rs:140-154 | one more comment changes the gathered handles exactly as that comment's outcome says |
| Handles.CollectFailurePersists | src/main.rs:146-149 | a failing prefix of the comments fixes the outcome of the run |
| Handles.CollectFailure | src/main.rs:140-154 | the run fails exactly when some comment fails, and then with the first such comment's failure |
| Handles.CollectMembers | src/main.rs:140-154 | on success the gathered handles are exactly those the comments contribute |
| Handles.FailureExtracted | src/main.rs:146-149 | a comment that fails after the earlier ones succeeded ends the run with its failure |
| Handles.SuccessExtracted | src/main.rs:155-157 | the gathered handles, sorted and without repeats, are a correct result of the run |
| Handles.GetInstagrams | src/main.rs:137-158 | fails as the first failing comment does; otherwise returns a strictly increasing list whose elements are exactly the handles the comments contribute, at most one per comment, each free of delimiters and `\ ( ) *` |
| Ordering.LessIrreflexive | src/main.rs:155 | no string is less than itself |
| Ordering.LessTransitive | src/main.rs:155 | the string order is transitive |
| Ordering.LessTotal | src/main.rs:155 | any two distinct strings are ordered one way or the other |
| Ordering.LessAsymmetric | src/main.rs:155 | the string order is asymmetric |
| Ordering.StrictlyIncreasingUnique | src/main.rs:155-156 | two strictly increasing lists with the same elements are equal |
| Ordering.SortedPermutationUnique | src/main.rs:155 | two sorted lists with the same multiset of elements are equal, so every correct sort gives the same result |
| Ordering.InsertKeepsSorted | src/main.rs:155 | inserting a string after every element not greater than it keeps a list sorted |
| Ordering.SortDedupIdempotent | src/main.rs:155-156 | sorting and deduplicating a result again changes nothing |
| Ordering.Sort | src/main.rs:155 | the result is sorted and a permutation of the input |
| Ordering.Dedup | src/main.rs:156 | the result is no longer than the input, holds the same strings, has no equal neighbours, and is strictly increasing when the input is sorted |
| Ordering.SortDedup | src/main.rs:155-156 | the result is strictly increasing, holds exactly the input's strings and is no longer than the input |
| FriFinder.Execute | src/main.rs:161-166 | a failed listing or thread request gives a request failure; no weekly post gives `GetUrlError`; a thread without a comment listing gives `NullJsonError`; otherwise the result is what `get_instagrams` promises for the flattened comments |
| Scenarios.BracketedMention | src/main.rs:139-145 | `word [m]` splits into `word`, `m` and an empty last token, and gives `m` stripped as the handle, an `a@b` included |
| Scenarios.LeadingRun | src/main.rs:139-141 | a leading delimiter run leaves an empty first token |
| Scenarios.LoneMention | src/main.rs:146 | `@ name rest` gives `@` followed by `name` stripped |
| Scenarios.TrailingLoneMention | src/main.rs:146 | `word @` indexes past the end of its two tokens |
| Scenarios.ProfileLink | src/main.rs:148-150 | a comment `https://www.instagram.com/name/` gives `@name` |
| Scenarios.BareSiteFails | src/main.rs:149 | the site address followed by text without `/` has no profile piece and fails with `ParseError` naming the token |
| Scenarios.EmptyComment | src/main.rs:129-130 | an empty body, which the flattening keeps, contributes nothing |
| Scenarios.SameHandleTwice | src/main.rs:155-156 | the same handle from two comments appears once in the result |

## Left out

- The HTTP requests and JSON decoding (`get_page` and `get_post`, `src/main.rs:81-83` and `105-107`) are not modelled. `FriFinder.Execute` takes them as function parameters, and `None` stands for a failed request or decoding, reported as `HttpError`.
- The error log (`log_event`), the writing of `output.txt`, the printing to standard output and the final `panic!` in `main` are not modelled. They are file and console I/O; `FriFinder.Execute` returns the list that would be written.
- The `Display` texts of `CustomError` are not modelled. They are only used for logging.
- The compilation of the two regular expressions, and its `?`, is not modelled. Both patterns are constants that compile, so that `?` never fails. The patterns themselves are modelled directly as `Text.Split` and `Text.Strip`. The capture group in the split pattern does not affect `Regex::split`.
- The panic on a trailing lone `@` is an explicit `OutOfBounds` failure in the model, where Rust aborts the process.
- `Ordering.Sort` is an insertion sort, while Rust's `sort` is a stable merge sort. The result is the same, because a sorted permutation is unique (`Ordering.SortedPermutationUnique`).
- `usernames` is a local sequence that the loops reassign, rather than a vector updated in place.
- Ordering.Dedup: for an input that is not sorted, the contract states the elements, the length bound and that no neighbours are equal, but not which of the repeated neighbours are dropped. `get_instagrams` only deduplicates sorted input, where the result is fixed by `Ordering.StrictlyIncreasingUnique`.
