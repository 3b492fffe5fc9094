# Poll: a Dafny model of the vote store and its pages

The poll application keeps one directory per poll under its data directory.
Every vote is a file named `USERID_ANSWERID.txt` holding a timestamp that no
read uses, so the answer lives in the file's name. A user is identified by a GUID kept in a cookie.
The polls themselves (ids, questions, answers) and a global `active` switch
come from a JSON configuration file.

This project models:

- the vote store (`saveVote`, `removeVote`, `getUserVote`, `getVoteCounts`,
  `getTotalVotes`). The store is a class `VoteStore.Store` whose field `dirs`
  maps each poll id that has a directory to the set of file names in it. The
  methods change `dirs` as the PHP functions change the file system.
- the poll catalogue lookups (`getPoll`, `arePollsActive`) over an
  already-parsed configuration.
- the GUID formatting of `getUserId`, with the eight random draws passed in.
- the request handling of the poll page: redirects, the active gate, answer
  validation, save or remove, the percentage loop, and which blocks of the
  page are shown.
- the JSON results endpoint, from a poll id to an error or to the results.

Module layout:

| file | module | what it holds |
|---|---|---|
| wrappers.dfy | Wrappers | `Option` |
| lex.dfy | Lex | byte-wise string order and the sorted listing `glob` returns |
| php.dfy | Php | PHP truthiness, ordered string-keyed arrays, `array_sum` |
| vote_files.dfy | VoteFiles | vote file names, the two glob patterns and the two regular expressions |
| catalog.dfy | Catalog | configuration datatypes, `getPoll`, `arePollsActive` |
| identity.dfy | Identity | GUID formatting and parsing, `getUserId` |
| tally.dfy | Tally | counting a listing, percentages |
| vote_store.dfy | VoteStore | the store's state, its effects as functions, the `Store` class |
| vote_properties.dfy | VoteProperties | what the store promises, proved over the effect functions |
| results.dfy | Results | the results both pages compute |
| poll_page.dfy | PollPage | the poll page's request handling and view choice |
| api.dfy | Api | the results endpoint |

Behaviour the model makes explicit:

- `glob` lists matches in byte order. `Lex.SortedList` builds that order for
  any set of names, and `getUserVote` reads the first name.
- A glob `*` does not match a leading '.', so `*.txt` never lists a file whose
  name starts with '.'. Votes of a user id starting with '.' are therefore
  never counted (`VoteProperties.DotIdNeverListed`).
- `getUserVote` reads the answer as the text after `USERID_`. `getVoteCounts`
  reads it as the text after the first '_' that has at least one character
  before `.txt`. These agree only when the user id has no '_'.
- `saveVote` removes the old vote before it opens the new file. A failed
  `fopen` therefore leaves the user with no vote at all.
- PHP truthiness: a cookie "0" counts as empty and a new id is generated.
  An answer id "0" makes the page look as if the user had not voted.
- A user id containing '_' breaks "one vote per user". Such an id can read
  and delete another user's vote (`VoteProperties.UnderscoreIdBreaksOneVotePerUser`,
  `UnderscoreIdReadsAnotherVote`, `UnderscoreIdRemovesAnotherVote`).
  Generated GUIDs never contain '_'; only a hand-set cookie can.

The file system's failures that the code reacts to are parameters: `mkdirOk`
and `fopenOk` for `saveVote`. The configuration file is an `Option<Config>`
(None when missing or not valid JSON). The random draws of `getUserId` are a
sequence of eight numbers.

## Model

| member | source | states |
|---|---|---|
| Catalog.FirstPollIsFirstMatch | poll/functions.php:73-79 | the lookup finds nothing iff no poll has the id; otherwise it returns the poll at the earliest index with that id |
| Catalog.GetPoll | poll/functions.php:67-80 | the loop with early return yields the first poll whose id equals the argument exactly; none when the configuration is missing or has no `polls` |
| Catalog.LookupPoll | poll/functions.php:67-80 | no poll iff the configuration is missing, has no `polls`, or no poll has the id; a found poll has exactly the id and is one of the configured polls |
| Catalog.ArePollsActive | poll/functions.php:87-90 | voting is open iff the configuration loaded and its `active` is the boolean true; a string, a number or a missing key leave it closed |
| Identity.Hex4 | poll/functions.php:23-24 | `%04x` of a 16-bit value is four lower-case hex digits whose value is the number |
| Identity.GuidWords | poll/functions.php:25-29 | the eight groups are 16-bit; the OR with 0x4000 and 0x8000 adds those bits to the bounded draws |
| Identity.OrAddsClearBit | poll/functions.php:27-28 | OR-ing in a power of two above every set bit of a value adds that power, which is why OR with 0x4000 and with 0x8000 adds to the bounded draws |
| Identity.FormatGuidRoundTrip | poll/functions.php:23-30 | a formatted GUID is 36 characters in 8-4-4-4-12 hex groups with '4' at index 14 and one of 8, 9, a, b at index 19; parsing its groups gives the words back; it has no '_' |
| Identity.GetUserId | poll/functions.php:17-36 | a set, non-empty cookie ("" and "0" are empty) is returned unchanged with no cookie set; otherwise a new GUID whose groups are the draws is returned and the cookie is set |
| VoteFiles.VoteFileMatchesUser | poll/functions.php:106-117 | `u_a.txt` is matched by `u_*.txt`, and the user pattern reads `a` back iff `a` is non-empty |
| VoteFiles.MatchesUserGlob | poll/functions.php:106-107 | a name matches `u_*.txt` iff it is `u`, then `_`, then any text, then `.txt` |
| VoteFiles.MatchesTxtGlob | poll/functions.php:203 | a name matches `*.txt` iff it ends in `.txt` and does not start with '.' (glob's `*` skips a leading dot) |
| VoteFiles.UserAnswer | poll/functions.php:115-116 | the capture of `u_(.+)\.txt$` on a name matching `u_*.txt`: found iff at least one character sits between `u_` and `.txt`; a found answer is non-empty and the name is exactly the vote file of that user and answer |
| VoteFiles.FirstUnderscore | poll/functions.php:213 | the index returned is the first '_' of the name, or its length when there is none |
| VoteFiles.CountedAnswer | poll/functions.php:213-214 | the capture of `_(.+)\.txt$`: a found answer is non-empty and the name is its owner (text with no '_'), then `_`, the answer, then `.txt` |
| VoteFiles.CountedAnswerOfVoteFile | poll/functions.php:213-214 | the counting pattern reads `a` from `u_a.txt` iff `u` has no '_' and `a` is non-empty |
| VoteFiles.AnswersAgree | poll/functions.php:115-116 | for an underscore-free user id, the counting pattern of line 213 and the user pattern read the same answer from any file the user's glob matches |
| VoteFiles.UserGlobIsOwnership | poll/functions.php:106 | for an underscore-free id, `u_*.txt` matches exactly the vote-shaped files whose text before the first '_' is `u` |
| Lex.SortedList | poll/functions.php:107 | the listing holds every name of the set exactly once, in strictly ascending byte order |
| Php.Lookup | poll/functions.php:216 | a key is found iff some entry has it |
| Php.Put | poll/functions.php:217-219 | writing a key changes that key's value only, and keeps keys unique |
| Php.SumPut | poll/functions.php:219 | replacing one key's count changes `array_sum` by exactly the difference |
| Php.GetAtMostSum | poll/functions.php:234 | no single count exceeds `array_sum` of the counts |
| Php.Truthy | poll/functions.php:18 | a request or cookie value is falsy exactly when it is null, "" or "0"; every string of two or more characters is truthy (the same test as poll/poll.php:14, 107, 114, 130, 189 and poll/api.php:13) |
| Tally.TallyCountsEachAnswer | poll/functions.php:209-221 | counting a listing of distinct names gives each answer the number of names the counting pattern reads it from |
| Tally.TallySum | poll/functions.php:209-221 | the counts sum to the number of names the counting pattern reads any answer from |
| Tally.TallyKeys | poll/functions.php:216-219 | an answer is a key of the counts iff its count is positive; keys are unique |
| Tally.Percent | poll/poll.php:72 | 0 when nobody voted; otherwise the value times the total equals the count times 100 (the same expression as poll/api.php:34) |
| Tally.PercentInRange | poll/poll.php:72 | a count within the total gives a percentage between 0 and 100 |
| Tally.PercentagesInRange | poll/poll.php:71-72 | every answer's share of the summed counts lies between 0 and 100 |
| Tally.ComputePercentages | poll/poll.php:69-73 | the keys are exactly the configured answer ids; each holds count over total times 100 with a missing count read as 0; all are 0 when the total is 0 |
| VoteStore.UserVote | poll/functions.php:99-120 | an answer found for a user is non-empty and its vote file is in the poll's directory |
| VoteStore.RemoveEffect | poll/functions.php:168-187 | removal keeps every poll and every other poll's files; in poll `p` it keeps exactly the files not matching `u_*.txt`, and none matching is left |
| VoteStore.SaveEffect | poll/functions.php:130-159 | saving succeeds iff the directory exists or mkdir succeeds, and fopen succeeds; on success `u_a.txt` is present; a poll directory is added only when mkdir ran; other polls are unchanged; afterwards at most `u_a.txt` matches `u_*.txt` |
| VoteStore.Store.RemoveVote | poll/functions.php:168-187 | always reports success; afterwards the poll's directory has lost exactly the files matching `u_*.txt` and nothing else changed |
| VoteStore.Store.SaveVote | poll/functions.php:130-159 | the outcome and the new directory tree are those of `SaveEffect`: mkdir failure changes nothing; otherwise the old vote is removed, then `u_a.txt` is added unless fopen fails |
| VoteStore.CountListing | poll/functions.php:209-221 | the loop over a listing yields the tally of that listing: the counts of its files, keyed in order of first appearance |
| VoteStore.Store.GetVoteCounts | poll/functions.php:195-224 | each answer's count is the number of listed files recording it; answers with no vote are absent; the counts sum to the number of counted files |
| VoteStore.Store.GetTotalVotes | poll/functions.php:232-235 | the total is the number of listed files that record some answer |
| VoteProperties.SaveRecordsTheVote | poll/functions.php:130-158 | saving succeeds iff the directory exists or is created and fopen succeeds; then the user has exactly one matching file and reads back `a` (nothing if `a` is empty) |
| VoteProperties.UserVoteReadsTheVote | poll/functions.php:99-120 | in any state, no file matching `u_*.txt` means no vote; for an underscore-free id under the one-vote invariant, a present `u_a.txt` with `a` non-empty means the vote read is `a` |
| VoteProperties.OnlyVoteFile | poll/functions.php:106-107 | under the one-vote invariant, a present `u_a.txt` of an underscore-free id is the only file `u_*.txt` finds |
| VoteProperties.SaveFailureEffects | poll/functions.php:134-149 | a mkdir failure leaves the store unchanged; an fopen failure leaves the user with no file and no vote |
| VoteProperties.RemoveClearsTheVote | poll/functions.php:175-184 | after removal no file matches the user's pattern and the user has no vote |
| VoteProperties.RemoveIsIdempotent | poll/functions.php:168-187 | removing twice is removing once; removing when nothing matches leaves the store unchanged |
| VoteProperties.PatternsOfDistinctUsersAreDisjoint | poll/functions.php:106 | distinct underscore-free users' patterns match no common file, and one user's vote file is not matched by another's pattern |
| VoteProperties.SaveAndRemoveLeaveOtherPolls | poll/functions.php:131-144 | save and remove on poll `p` leave every other poll's directory, and its existence, as it was |
| VoteProperties.SaveKeepsOtherFiles | poll/functions.php:134-158 | within poll `p`, a save neither removes nor adds any file that does not match `u_*.txt`, also when it creates the directory |
| VoteProperties.OtherUserFilesUnchanged | poll/functions.php:175-176 | replacing an underscore-free user's files by a new vote file leaves another underscore-free user's matching files unchanged |
| VoteProperties.SaveAndRemoveLeaveOtherUsersVote | poll/functions.php:141-144 | with underscore-free ids, save and remove by one user do not change another user's vote |
| VoteProperties.AtMostOneVote | poll/functions.php:141-145 | under the one-vote invariant an underscore-free user has at most one matching file |
| VoteProperties.SaveAndRemoveKeepOneVotePerUser | poll/functions.php:141-145 | save and remove by an underscore-free user keep at most one vote file per owner |
| VoteProperties.UnderscoreIdBreaksOneVotePerUser | poll/functions.php:141-144 | user `a_b` saving next to user `a`'s vote leaves two vote files owned by `a` |
| VoteProperties.UnderscoreIdReadsAnotherVote | poll/functions.php:106-116 | with only `a_b_y.txt` present, user `a` reads the vote `b_y` |
| VoteProperties.UnderscoreIdRemovesAnotherVote | poll/functions.php:175-184 | removing user `a`'s vote deletes user `a_b`'s file |
| VoteProperties.VoteFileIsCounted | poll/functions.php:203-214 | a vote file of an underscore-free id not starting with '.' is listed and counted under its answer |
| VoteProperties.DotIdNeverListed | poll/functions.php:203 | a vote file of a user id starting with '.' is never listed by `*.txt`, so that user's votes are never counted |
| VoteProperties.SaveMovesOneCount | poll/functions.php:130-235 | saving `b` over a previous vote `a` lowers `a`'s count by one, raises `b`'s by one, leaves other counts and the total alone; a first vote, including one that creates the poll directory, raises only `b` and the total by one |
| VoteProperties.GeneratedIdsVoteSafely | poll/functions.php:23-30 | a generated id has no '_' and no leading '.', so its votes are listed and counted under their answer |
| Results.ComputeResults | poll/poll.php:64-73 | counts, total and percentages agree with the store: each count is the number of votes, the total is the counted files and the sum of the counts, percentages cover exactly the poll's answers |
| Results.ResultsAreConsistent | poll/poll.php:69-73 | no count exceeds the total; every answer's percentage lies between 0 and 100 and is 0 when nobody voted |
| PollPage.ChooseView | poll/poll.php:107-138 | the vote form shows iff the vote is falsy and voting is open; the change-vote button iff truthy and open; the closed alert iff falsy and closed; the form and the results are exclusive; a closed poll offers neither form nor button |
| PollPage.VoteForZeroLooksUnvoted | poll/poll.php:107-114 | a vote for the answer id "0" shows the vote form and no change-vote button |
| PollPage.IsValidAnswer | poll/poll.php:36-42 | the flag is set iff some answer of the poll has exactly the posted id |
| PollPage.HandleRequest | poll/poll.php:12-73 | a missing or unknown id redirects to the index with the store unchanged; a POST while open saves a valid answer (an invalid one records nothing) and redirects; `answer` takes precedence over `remove_vote`, which removes and redirects; otherwise the store is unchanged and the page shows the user's vote, the results and the chosen view |
| Api.Handle | poll/api.php:10-44 | a missing id gives "Poll ID required"; an unknown poll gives "Poll not found"; otherwise the response echoes the id and carries results that agree with the store (so `Results.ResultsAreConsistent` applies to them), which it does not change |

## Left out

- `loadConfig` (poll/functions.php:43-59): reading and decoding the file is I/O; the configuration is an `Option<Config>` input.
- Configuration values of other JSON types: poll and answer ids are strings, `polls` is a list; an integer id (never `===` a string) is not modelled.
- Array-valued request and cookie parameters (`id[]=1`, `poll_user_id[x]=…`): PHP delivers an array, which passes the truthiness test and then makes `getPoll(string $pollId)` or `getUserId(): string` throw a TypeError, a fatal error rather than "Poll not found" or a redirect. Request and cookie values are `Option<string>` here, so that failure is not modelled.
- User ids containing '/': the source joins the id into every path by concatenation (poll/functions.php:106, 144, 175), so a hand-set cookie such as `../q/x` makes `saveVote` and `removeVote` write and delete in another poll's directory and makes `getUserVote` miss the vote (`basename` strips the path before the regex). The model treats the id as one file-name component, so `VoteProperties.SaveAndRemoveLeaveOtherPolls`, `SaveRecordsTheVote` and the other store lemmas describe ids without '/' only; generated GUIDs never contain '/'.
- Names containing a newline or a glob metacharacter: ids are assumed free of them, so the glob and regular expression readings are exact.
- `unlink` failure: every unlink is taken to succeed, as `removeVote` ignores its result.
- `flock` and concurrent requests: the model is sequential.
- `setcookie`, `time()` and `mt_rand`: the cookie write is the `setCookie` flag and the draws are parameters.
- The timestamp written into a vote file: it does not affect any read.
- Floating-point percentages and `number_format`: percentages are exact reals.
- The HTML, Bootstrap markup and the refresh script of poll/poll.php (lines 75-248), including the per-answer highlight of the user's choice.
- poll/index.php: presentation only.
- PHP's conversion of numeric-string array keys to integers and the resulting JSON list shape.
- `header` and `exit`: modelled as the returned outcome; the endpoint's `Content-Type` header is not modelled.
- VoteStore.Store.GetVoteCounts: states each key's count and which keys exist, not the order of the keys (order of first appearance in the sorted listing).
- Tally.ComputePercentages: states each answer's value and the key set, not the key order (order of first appearance among the answers).
