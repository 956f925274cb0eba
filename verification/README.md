# Slack moderation bots, modelled in Dafny

This project models the matching and bookkeeping core of three Slack
moderation bots that share one idea: a message is reduced to letters, and a
banned phrase is found in it even when letters are repeated, look-alike
characters are used or separators are put between the letters.

- `index.js` is the two-tier bot. Two phrase files, `.slurlist` and
  `.profanitylist`, give the hard and the soft tier. A message is
  normalised: lower-cased, passed through a twenty-entry look-alike table,
  and stripped of everything outside `a`–`z`. Each phrase becomes a
  word-boundary anchored "loose" pattern `\b c1+[^a-zA-Z0-9]* … ck+[^a-zA-Z0-9]* \b`.
  A hard match auto-deletes the message; otherwise a soft match flags it
  for review.
- `filter.js` is the single-tier bot. Banned words come from the
  comma-separated `BANNED_WORDS` setting. Each word becomes an unanchored
  pattern of character classes `[C1]+\s*…[Ck]+\s*`, and a word also
  matches when the normalised text contains it. Any match posts a notice.
- `slackfilter.js` is the per-channel bot. Each channel has an
  insertion-ordered set of lower-case phrases, edited with `/add-banned`
  and `/remove-word` and shown with `/view-list`. A message containing one
  of its channel's phrases, in any letter case, is deleted.

The modules are:

- `Text`: JavaScript string primitives. It covers ASCII `toLowerCase`,
  `trim` with ECMAScript white space, `split` on one character,
  `includes`, and the regular-expression character classes.
- `Seqs`: `Option`, `map`, `filter` and `find` on sequences.
- `Normalize`: the table-driven normaliser that both bots share.
- `LooseGrammar`: the run grammar both loose patterns denote. A pattern
  character is matched by one or more stand-ins, followed by zero or more
  separators.
- `Events`: the Slack event fields the bots read, and JavaScript
  truthiness.
- `IndexBot`, `FilterBot` and `ChannelFilter`: one module per bot.

Regular expressions are not interpreted. Each pattern is stated as the
grammar it denotes, and `test` as "some substring is derived".
`IndexBot.LooseTestIsAccepts` then gives `index.js` matching a plain
reference meaning. On normalised text, a phrase matches exactly when the
text is its normal form with every letter repeated one or more times.

Some behaviour of the code is easy to miss:

- `/add-banned` replies with every piece as typed, whether it was new or
  already stored. Adding "Foo,foo,FOO" stores just `foo` but echoes all
  three (`ChannelFilter.CaseVariantsStoredOnce`).
- In `index.js`, a phrase line whose normal form is empty, such as `***`,
  stays in the list. It builds the pattern `\b\b`, which matches every
  non-empty normalised message (`IndexBot.Accepts`).
- `filter.js` keeps empty words (a trailing comma in `BANNED_WORDS`). An
  empty word matches every message (`FilterBot.EmptyWordReportsEverything`).
- The `filter.js` normaliser has no entry for `4`, `#` or `|`, so those
  characters are stripped rather than read as letters
  (`FilterBot.NormalizeTextChar`).

## Model

| member | source | states |
|---|---|---|
| IndexBot.NormalizeTextChar | index.js:47-57 | one character normalises to its table entry when it is a key (an empty entry makes it vanish), to its lower-case form when it is a letter, and to nothing otherwise |
| IndexBot.NormalizeText | index.js:47-57 | `normalizeText`: lower-case the text, replace each character by its entry in the twenty-entry table (an empty entry falls back to the character), and keep only `a`–`z` |
| IndexBot.NormalizeTextAlphabetAndIdempotent | index.js:55-57 | the normal form uses only `a`–`z`, and normalising it again changes nothing |
| Normalize.NormalizeAppend | index.js:55-57 | normalisation is character by character: the normal form of a concatenation is the concatenation of the normal forms |
| Normalize.NormalizeFixesLetters | index.js:55-57 | text made of lower-case letters is its own normal form |
| LooseGrammar.ExpandRuns | index.js:59-66 | soundness of the loose grammar: a positive run of a stand-in for each pattern character, in order, is derived |
| LooseGrammar.RunsExpand | index.js:59-66 | completeness on separator-free text where a stand-in must equal its character: every derived text is a positive run of each pattern character, in order |
| LooseGrammar.RunsLength | index.js:59-66 | a derivation covers at least one text character per pattern character |
| IndexBot.LooseTest | index.js:59-66 | `buildLooseRegex(phrase).test(t)`: some substring of t, with `\b` at both of its ends, is derived by the run grammar of the phrase's normal form, letters compared ignoring case and separators outside `[a-zA-Z0-9]` |
| IndexBot.WholeStringMatch | index.js:59-66 | on letters-only text, the word-boundary anchors force the pattern to match the whole text |
| IndexBot.LooseTestIsAccepts | index.js:59-66 | `buildLooseRegex(phrase).test(t)` on normalised text holds exactly when t is the phrase's normal form with every letter repeated one or more times (any non-empty t when that normal form is empty) |
| IndexBot.NothingMatchesEmptyText | index.js:59-66 | no phrase matches the empty normalised message |
| IndexBot.PhraseMatchesOwnNormalForm | index.js:59-66 | a phrase with letters matches its own normal form |
| IndexBot.RepeatedLettersExample | index.js:59-66 | "spam" matches "ssspaaaam" |
| IndexBot.AnchoringExample | index.js:59-66 | "spam" does not match "thisisspam", and "ok" does not match "smoker" |
| IndexBot.ParsePhraseList | index.js:15-23 | every entry is non-empty, not a comment, trimmed and lower-case, and there are no more entries than lines |
| IndexBot.ParsePhraseListConcat | index.js:15-23 | entries keep line order: the list of `a + "\n" + b` is the list of a followed by the list of b |
| IndexBot.ParsePhraseListLine | index.js:15-23 | a single line contributes its trimmed lower-case form unless that is empty or starts with `#` |
| IndexBot.FirstMatch | index.js:81-82 | the result is the first phrase in list order whose pattern accepts the text, or nothing exactly when no phrase does |
| IndexBot.Decide | index.js:78-115 | auto-delete carries the first hard match and flag carries the first soft match; flagging and doing nothing both need the hard lookup to find nothing |
| IndexBot.DecideByAccepts | index.js:81-115 | for lists of non-empty phrases: delete exactly when some hard phrase accepts the normalised text; flag exactly when no hard phrase accepts and some soft phrase does |
| IndexBot.HardTakesPrecedence | index.js:93-115 | a hard match auto-deletes whatever the soft tier says |
| IndexBot.HandleEvent | index.js:75-82 | missing events, events from the bot itself and non-plain messages are ignored; otherwise the decision is taken on the text, a missing text read as empty |
| Events.OrEmpty | index.js:78 | a missing or empty event text reads as the empty string, any other text as itself |
| Text.Trim | slackfilter.js:116 | `trim`: blank text trims to nothing; otherwise the result is the text between its leading and trailing ECMAScript white space, and already-trimmed text is unchanged |
| Text.Split | slackfilter.js:116 | `split(',')` always gives at least one piece |
| Text.JoinSplit | slackfilter.js:116 | `split` loses nothing: joining the pieces back with the separator restores the text |
| Text.SplitJoin | slackfilter.js:116 | pieces free of the separator come back from splitting their join |
| FilterBot.NormalizeTextChar | filter.js:42-58 | the seven-entry table: `@ ! 1 $ 0 3` become `a i i s o e`; `*`, `4`, `#` and the pipe character disappear |
| FilterBot.NormalizeText | filter.js:42-58 | `normalizeText`: lower-case the text, replace each character by its entry in the seven-entry table (the empty entry for `*` falls back to `*`), and keep only `a`–`z` |
| FilterBot.NormalizeTextAlphabetAndIdempotent | filter.js:42-58 | the normal form uses only `a`–`z`, and normalising it again changes nothing |
| FilterBot.ClassOf | filter.js:60-79 | the class for a word character always contains that character first |
| FilterBot.LooseTest | filter.js:60-79 | `buildLooseRegex(word).test(text)`: some substring of the text is derived by the run grammar of the raw word, each word character standing for its class, compared ignoring case, with `\s` separators |
| FilterBot.ContainedWordMatches | filter.js:60-79 | the pattern is unanchored: a word free of `]`, `\` and `^` that occurs verbatim anywhere in the text matches |
| FilterBot.LookAlikeExample | filter.js:60-79 | "hello" matches "say h3ll0 there" |
| FilterBot.MatchNeedsLength | filter.js:60-79 | a text shorter than the word never matches |
| FilterBot.MatchNeedsStandIn | filter.js:60-79 | a non-empty word matches only a text holding a character of its first character's class |
| FilterBot.RejectionExamples | filter.js:60-79 | "hello" does not match "help", and "cat" does not match "dog dog dog" |
| FilterBot.EmptyWordMatchesEverything | filter.js:91-94 | the empty word matches every text, through both the pattern and `includes` |
| FilterBot.IncludesNeedsLetters | filter.js:89-93 | the `includes` test can only succeed for a word of `a`–`z` letters |
| FilterBot.WordMatches | filter.js:91-94 | the `filter` callback: the word's pattern accepts the lower-cased text, or the normalised text includes the word |
| FilterBot.ParseBannedWords | filter.js:11-13 | an unset or empty setting gives no words; otherwise one word per comma-separated piece, the k-th word being the k-th piece trimmed and lower-cased |
| FilterBot.ParseBannedWordsPiece | filter.js:11-13 | a setting without commas is a single word, itself trimmed and lower-cased, kept even when that leaves it empty |
| FilterBot.ParseBannedWordsConcat | filter.js:11-13 | words keep the order of the setting |
| FilterBot.TrailingCommaKeepsEmptyWord | filter.js:11-13 | a trailing comma leaves an empty word in the list |
| FilterBot.MatchedWords | filter.js:91-94 | the matched words are exactly the banned words whose pattern accepts the lower-cased text or whose normalised text contains them |
| FilterBot.MatchedWordsAppend | filter.js:91-94 | the matched words keep the order and the repeats of the banned words: matching a concatenated word list gives the concatenated results |
| FilterBot.MatchedWordsNonEmpty | filter.js:91-96 | some word is matched exactly when some banned word matches |
| FilterBot.Notifies | filter.js:84-101 | the notice is posted exactly for plain messages not from the bot in which some banned word matches |
| FilterBot.UnsetNeverNotifies | filter.js:11-13 | with `BANNED_WORDS` unset nothing is ever reported |
| FilterBot.EmptyWordReportsEverything | filter.js:91-96 | an empty banned word reports every plain message not from the bot |
| ChannelFilter.ContainsBannedPhrase | slackfilter.js:74-82 | nothing for a channel with no entry; otherwise the first phrase in insertion order that the lower-cased text contains, and nothing exactly when none is contained |
| ChannelFilter.Mentions | slackfilter.js:77-79 | `text.toLowerCase().includes(phrase.toLowerCase())` |
| ChannelFilter.HandleEvent | slackfilter.js:87-90 | only plain messages with text and no `bot_id` are checked; the deleted-for phrase is non-empty and is the channel's first contained phrase |
| ChannelFilter.IsCheckedMessage | slackfilter.js:87-88 | the event is present, of type `message`, without subtype, with a non-empty text and without `bot_id` |
| ChannelFilter.InsertAll | slackfilter.js:116-119 | adding to a set gives the old set followed by the first occurrence of each new phrase in request order (reference `Firsts`); it holds exactly the old and the added phrases and introduces no duplicate |
| ChannelFilter.InsertAllPresent | slackfilter.js:119 | adding phrases already present changes nothing |
| ChannelFilter.InsertAllKeepsPhraseSet | slackfilter.js:116-119 | adding non-empty lower-case phrases keeps the set free of duplicates, empty and upper-case phrases |
| ChannelFilter.Delete | slackfilter.js:146 | `set.delete(x)` leaves exactly the other phrases |
| ChannelFilter.DeleteAll | slackfilter.js:143-147 | exactly the requested phrases leave the set; the report holds exactly the present requested phrases, each once |
| ChannelFilter.DeleteAllRest | slackfilter.js:143-147 | the remaining set is the old set, in its order, without the requested phrases |
| ChannelFilter.DeleteAllRemoved | slackfilter.js:143-147 | the report lists the requested phrases in request order, each at its first request, kept when the old set held them |
| ChannelFilter.DeleteAllKeepsPhraseSet | slackfilter.js:143-147 | removing phrases keeps the set free of duplicates, empty and upper-case phrases |
| ChannelFilter.AddPieces | slackfilter.js:116 | the pieces of an add request are non-empty and trimmed |
| ChannelFilter.AddPiecesConcat | slackfilter.js:116 | add pieces keep the order of the text: the pieces of `a,b` are those of a followed by those of b |
| ChannelFilter.AddPiecesPiece | slackfilter.js:116 | a text without commas gives its trimmed form as the one piece, or nothing when that is empty |
| ChannelFilter.RemovePieces | slackfilter.js:139 | the pieces of a remove request are non-empty, trimmed and lower-case |
| ChannelFilter.RemovePiecesConcat | slackfilter.js:139 | remove pieces keep the order of the text: the pieces of `a,b` are those of a followed by those of b |
| ChannelFilter.RemovePiecesPiece | slackfilter.js:139 | a text without commas gives its trimmed lower-case form as the one piece, or nothing when that is empty |
| ChannelFilter.AddPhrases | slackfilter.js:108-121 | blank text gives the usage reply and refusal gives the denial, both with no change. Otherwise the channel's set becomes its old phrases followed by the new lower-cased pieces in request order, each once; other channels are untouched; the reply echoes every piece as typed |
| ChannelFilter.View | slackfilter.js:123-129 | "no phrases" exactly when the channel's set is missing or empty; otherwise the set in insertion order |
| ChannelFilter.RemovePhrases | slackfilter.js:131-152 | blank text, refusal and a channel with no entry answer without change. Otherwise the set loses exactly the requested phrases and other channels are untouched; the reply lists the removed phrases in request order, each once, and says none were found exactly when none was removed |
| ChannelFilter.HandleCommand | slackfilter.js:105-155 | every command keeps the store valid and never drops a channel; `/view-list` and unknown commands change nothing, and unknown commands answer "not found" |
| ChannelFilter.AddIdempotent | slackfilter.js:116-120 | repeating an add changes nothing |
| ChannelFilter.AddThenMentionDeletes | slackfilter.js:74-90 | once a phrase is added, a checked message in that channel containing it in any letter case is deleted |
| ChannelFilter.RemoveEverythingEmpties | slackfilter.js:123-152 | removing every phrase of a channel leaves `/view-list` reporting none |
| ChannelFilter.DeniedChangesNothing | slackfilter.js:112-138 | without authorisation no command changes the store |
| ChannelFilter.CaseVariantsStoredOnce | slackfilter.js:116-120 | "Foo,foo,FOO" on a fresh channel stores only `foo` and replies with all three pieces |

## Left out

- HTTP and Express plumbing, `verifySlackRequest` (HMAC signatures and
  timestamps), the `url_verification` handshake and the listening port are
  not modelled. They are transport, not moderation logic.
- Slack Web API calls (delete, postMessage, postEphemeral, getPermalink,
  users.info), Airtable record creation and the admin-roles `fetch` are
  left out. They are I/O; the model returns the action or reply that
  triggers them.
- Failures caught by `try/catch` around that I/O are not modelled. They
  change no state the model keeps.
- `isChannelManager` and its fallback to the channel creator are network
  lookups. The verdict is a boolean parameter, `allowed`.
- Reading the phrase files and environment variables is I/O. Their
  contents are parameters, and the bot's own user ID, fetched by
  `auth.test`, is an optional parameter.
- `test.js` is not part of this model.
- Text.Lower: lower-cases ASCII letters only; JavaScript's `toLowerCase`
  also folds non-ASCII letters, and the model leaves those unchanged. This
  has consequences. In `index.js` and `filter.js` a non-ASCII letter that
  lower-cases to ASCII (U+212A KELVIN SIGN to `k`, U+0130 to `i` followed
  by U+0307) survives normalisation in the program but is stripped in the
  model. In `slackfilter.js` and the `filter.js` regex test, `É` and `é`
  count as the same letter in the program and as different ones in the
  model, so `ChannelFilter.AddThenMentionDeletes` promises "any letter
  case" for ASCII letters only. The `i` flag of the regexes is modelled
  the same way.
- Strings are sequences of Unicode scalar values, while
  JavaScript strings are sequences of UTF-16 code units. Characters
  outside the Basic Multilingual Plane differ. `filter.js` walks a word by
  code point but builds a regex without the `u` flag, so an astral
  character in a banned word becomes a class of its two surrogates. That
  class matches any text character sharing either surrogate: the banned
  word "😀" matches the text "😃" in the program and not in the model.
- FilterBot.MatchedWords: requires every banned word to be free of `]`,
  `\` and `^`. `filter.js` pastes words into a character class without
  escaping, so such words change the pattern's meaning or make it invalid
  (a thrown error). That regex-injection behaviour is not modelled.
- FilterBot.Notifies: carries the same requirement on the parsed words, for
  the same reason.
- FilterBot.ContainedWordMatches, FilterBot.MatchedWordsAppend,
  FilterBot.MatchedWordsNonEmpty and FilterBot.EmptyWordReportsEverything:
  carry the same requirement, for the same reason.
- Matching time is not modelled. Backtracking cost is a property of the
  regex engine, and the grammar predicates state only which texts match.
- The reply texts are represented by `Reply` constructors that carry the
  phrase lists, not by the formatted strings joined with `", "`.
