# KyPost verification project

This project models the parts of the KyPost server whose correctness is hard to see from reading one
function, and proves what they promise. Check the project with `dafny verify dfyconfig.toml`
(Dafny 4.11).

## What is modelled

**Mail rules.** A rule's match tree and actions are printed as Sieve text (a subset of RFC 5228 with
the flags of RFC 5232), read back by a hand-written lexer and recursive-descent parser, and evaluated
against messages. `SieveLexer` and `SieveParser` hold the specification functions and the `Lexer` and
`Parser` objects proved against them; `SieveCompiler` the printer; `RulesEngine` the meaning of trees.
`SieveGrammar` and `SieveScripts` give a syntax tree of the language with a reference meaning and prove
the parser exact for it, `SieveUnique` that the language is unambiguous, `SieveErrors` that every error names
a line of the text; `SievePrinting`, `CompiledTests`, `CompiledRules` and `SieveRoundTrip` prove
what the printed text is and what comes back, and `SieveRejections` why a stray space in a comparator
makes a script unreadable; `SieveMeaning` compares meanings before and after; `SieveRequires` compares the
`require` line with the extensions a script uses; `SieveShape` has the shape check of match trees;
`SieveWitnesses` holds accepted script texts on which a promise fails.

**Address book.** One counter drives ETags, the delta cursor of mobile clients, tombstones and the
garbage collection watermark. `ContactStore` has every operation as a function on states and the
`Store` object that performs it; `UnionFind` and `DuplicateGraph` find duplicates; `ContactMerge` folds
a group of them. `ContactBook` says what each operation does to the map from UIDs to contacts;
`ContactRuns` proves what every run keeps, that delta synchronisation converges and
that no update is lost; `DedupeEffect`, `DedupeIdempotence` and `DedupeConservation` prove what a
deduplication pass does, what a second one finds and that it changes nothing, and that matching keys,
scalars, lists and provenance are conserved (labels of equal values, blank values and the own-contact mark
of an absorbed contact are not); `SelfMark` when at most one contact is the user's own.

**Mail cache.** `MailCache` is the cached window of a mailbox with its synchronisation, its warming
writer and its read path; `MailCacheSync` proves what its revisions mean and what one poll does to a client's
copy; `MailCachePollers` what any number of polling clients show over whole runs.

**Small machines.** `RateLimiter` (sliding-window rate limit), `LoginLockout` (strikes and cooldown),
`PullQueue` (bounded notification queue), `PushRelay` (key and token registry of the push relay).

`Wrappers`, `Text` and `Sorting` hold what all of them share.

## How to read the claims

Objects that change their fields in the program are classes here; each of their methods states its
result and its whole new state through a specification function, and the properties are lemmas about
those functions, for all inputs and all runs. Each method is one atomic step; clocks, generated
identifiers, SHA-256 and the regexp library are parameters. The clocks of the three machines that
measure time are required not to run backwards.

Where a promise is not kept on all inputs, the exact condition is proved:

- A compiled rule parses back to itself if and only if it is canonical (`RoundTripExact`): values with
  control or other non-printable characters are escaped by the printer in a way the lexer does not undo
  (backend/internal/rules/sieve.go:756-780).
- A compiled script is accepted if and only if every comparator prints as one of the four tags followed by
  blanks of the language, no group is empty and it nests at most 32 deep (`ReparseExact`). A comparator is
  recognised trimmed but printed untrimmed (backend/internal/rules/sieve.go:183-190), and the handlers that
  create and update rules check the shape of the tree only (backend/internal/api/rules_handlers.go:107, 153)
  before the script is shown and read back (lines 234 and 248 there).
- A parsed script keeps its meaning if and only if its root is not a negated group or a negated test with
  several fields (`RootMeaningExact`): the parser drops the negation of the root group
  (backend/internal/rules/sieve.go:275-280). `NegatedRootLost` gives such a text.
- When its script is accepted, a one-leaf rule keeps its meaning through printing and parsing if and only if the
  leaf's comparator is one of the four tags up to case and padding and its value is quotable, or it is a plain
  `exists` on a header field (`LoneMeaningExact`); all accepted rules built from given leaves keep theirs if and
  only if those leaves are so (`SafeLeavesExact`). A missing comparator, for one, means `contains` to the engine
  and `is` to the compiler (`MissingComparatorChangesMeaning`).
- The shape check accepts what the parser makes of a script if and only if the script's groups, counted without
  `not` and with one more for a test of several fields, nest at most 32 deep and it lists at most 300 leaves
  (`ParsedValidExact`). The parser counts otherwise and lets a tree of group depth 33 through
  (`ParserExceedsValidator`), although the comments in backend/internal/rules/sieve.go:288-332 mean both
  entry points to share one limit.
- A compiled script requires every extension it uses if and only if the capability check notices a leaf for
  each (`RequiresUsedExact`): it compares fields untrimmed and the regex comparator in exact case
  (backend/internal/rules/sieve.go:103-131), the printer does not (`PaddedFieldUnnoticed`). Rules that came
  from a script always require exactly what they use (`ShapedRequiresExactly`).
- A multi-field `exists` means any of its fields here; RFC 5228 section 5.5 asks for all of them. The two agree
  if and only if the list names a single field (`ExistsMeaningExact`).
- The comment on `Dedupe` says a second run finds no duplicates. It finds exactly the groups of the first run
  that did not qualify (`GroupFoundExact`), so none if and only if all did (`NothingFoundExact`); a chain of
  three contacts of different names is found again (`ChainFoundAgain`). It merges none (`DedupeIdempotent`).
- The user's own contact is still marked after a pass if and only if no older contact is in its qualifying group
  (`MarkSurvivesExact`): the survivor keeps its own mark (`MarkLost`).
- A poll of the mail cache shows its client every live message as it is now, and exactly the live list if and only
  if every message the client showed is live or was still in the window the poll compared with; so for every poll
  of every run of any number of clients and writers (`EveryPollExact`). A client always shows the live list if and
  only if it misses nothing between two of its polls (`AlwaysLiveExact`). A second poller can make it miss a
  removal (`SecondPollerHidesRemoval`); a single poller with a fixed limit and no overflow misses none
  (`SinglePollerHoldsLive`).
- Failures of one key are spaced by the lockout time in all runs of a number of keys if and only if those are
  fewer than 10000, or one failure locks out already, or a lockout lasts no time (`SpacingExact`): the
  housekeeping of a full map drops strikes that are not a lockout yet (`SweepForgetsStrikes`).
- A reader of the pull queue has received everything if and only if it was never more than 100 behind
  (`CompleteExact`).

What callers of the address book owe it: at most one contact stays marked as the user's own throughout a run if and
only if no write creates a marked contact while one is marked (`RunSelfExact`). Payloads from clients carry no mark
(backend/internal/api/contacts_handlers.go:17); the handlers that read a contact and write it back
(backend/internal/api/contacts_photo.go:60, backend/internal/api/groups_handlers.go:119) could create one if the
contact is purged in between.

## Model

| member | source | states |
|---|---|---|
| SieveLexer.LexSieve | backend/internal/rules/sieve.go:718-809 | the scanning loop returns exactly the token list (or the error with its line) that the lexical rules assign to the text |
| SieveLexer.Lexer.SkipWhitespaceAndComments | backend/internal/rules/sieve.go:830-874 | stops at the first position that starts neither blank nor comment; an unclosed comment is an error at its first line |
| SieveLexer.Lexer.ScanString | backend/internal/rules/sieve.go:755-780 | the literal's text with every backslash dropped and the next character kept, or none if unterminated |
| SieveLexer.Lexer.ScanWord | backend/internal/rules/sieve.go:794-806 | consumes the maximal run of word characters |
| SieveLexer.LexShape | backend/internal/rules/sieve.go:706-735 | only the last token is end-of-file, and token lines never decrease nor exceed the text's lines |
| SieveParser.Parser.EnterTest | backend/internal/rules/sieve.go:367-373 | fails exactly at nesting 32 and otherwise counts one level |
| SieveParser.Parser.Next | backend/internal/rules/sieve.go:381-387 | never moves past the final token |
| SieveParser.Parser.StringList | backend/internal/rules/sieve.go:418-442 | the bracketed list, with its trailing-comma and empty cases, as specified |
| SieveParser.Parser.ComparatorTag | backend/internal/rules/sieve.go:465-482 | the tag if it is one of the four, the default if there is none, an error otherwise |
| SieveParser.Parser.Test | backend/internal/rules/sieve.go:484-599 | same result and position as the grammar's parse function, and the nesting depth is restored on success |
| SieveParser.Parser.Actions | backend/internal/rules/sieve.go:254-266 | the listed actions without `keep`, up to the closing brace |
| SieveParser.Parser.Requires | backend/internal/rules/sieve.go:228-243 | skips `require` statements that name only allowed capabilities and rejects the others |
| SieveParser.ParseRuleText | backend/internal/rules/sieve.go:221-286 | the whole parse as specified; every field other than Match and Actions passes through |
| SieveGrammar.ParserExact | backend/internal/rules/sieve.go:484-615 | the test parser finds a condition at a position if and only if a well-spelled test that nests at most 32 deep and has no empty group is written there, with that denotation and end |
| SieveScripts.ParseTextExact | backend/internal/rules/sieve.go:221-286 | a text is accepted with rule r if and only if it spells a well-formed script within the nesting bound whose rule is r |
| SieveUnique.SpellsUnique | backend/internal/rules/sieve.go:221-615 | a text spells at most one well-formed script, whether or not it is accepted |
| SieveErrors.ErrorLines | backend/internal/rules/sieve.go:217-286 | every error of a rejected text has a line between 1 and the number of its lines |
| SieveGrammar.DenoteMeans | backend/internal/rules/sieve.go:484-615 | the condition built for a test matches a message exactly when the test holds of it by the reference meaning |
| SieveScripts.RootMeans | backend/internal/rules/sieve.go:275-280 | the parsed rule matches what its script says, and the opposite when the root is a negated group |
| SieveScripts.RootMeaningExact | backend/internal/rules/sieve.go:275-280 | parsing keeps a script's meaning on all messages if and only if the root is not a negated group |
| SieveWitnesses.NegatedRootLost | backend/internal/rules/sieve.go:275-280 | an accepted text whose rule matches exactly the messages its test turns down |
| SieveScripts.ExistsMeaningExact | backend/internal/rules/sieve.go:556-570 | the condition built for `exists` asks for all listed fields if and only if they are one field |
| SieveRoundTrip.ParsedShaped | backend/internal/rules/sieve.go:444-615 | every accepted script yields a tree in the parser's normal shape and supported actions |
| SieveRoundTrip.ReparseStable | backend/internal/rules/sieve.go:221-286 | a parsed rule compiles, and parsing that gives it back if and only if its values are quotable and its printed depth is at most 32 |
| SieveShape.ParsedDepth | backend/internal/rules/sieve.go:357-377 | every accepted script has group depth at most 33 |
| SieveShape.ValidateExact | backend/internal/rules/sieve.go:333-355 | the shape check accepts exactly the trees of depth at most 32 with at most 300 leaves |
| SieveShape.ParsedValidExact | backend/internal/rules/sieve.go:288-377 | it accepts the tree of an accepted script if and only if the script's groups, without `not` and plus one for several fields, nest at most 32 deep and list at most 300 leaves |
| SieveWitnesses.ParserExceedsValidator | backend/internal/rules/sieve.go:333-377 | a script text is accepted with a tree of group depth 33, which the shape check rejects |
| SieveCompiler.CompileRule | backend/internal/rules/sieve.go:25-69 | builds the specified script text or returns the first error |
| SieveCompiler.AppendActions | backend/internal/rules/sieve.go:54-65 | appends one line per action in order, or stops at the first unsupported one |
| SievePrinting.RereadExact | backend/internal/rules/sieve.go:755-780 | a value survives quoting and lexing if and only if every character of it is quotable |
| SievePrinting.LexRender | backend/internal/rules/sieve.go:718-809 | lexing a well-spaced printed text gives back its lexemes |
| SieveRoundTrip.CompiledSpells | backend/internal/rules/sieve.go:25-213 | a script emitted for tidy comparators is well-formed and spells the printed syntax tree, whatever the values contain; one emitted for an untidy comparator spells no well-formed script |
| SieveRejections.UntidyRejected | backend/internal/rules/sieve.go:183-190 | a comparator printed with white space in front, or behind that the lexer does not skip, makes the whole script rejected |
| SieveRoundTrip.ReparseExact | backend/internal/rules/sieve.go:133-286 | parsing any compiled rule gives its normalized form when its comparators are tidy, no group is empty and it prints at most 32 deep, and is rejected otherwise |
| SieveRoundTrip.RoundTripExact | backend/internal/rules/sieve.go:25-286 | a rule compiles and parses back to itself if and only if it is canonical |
| SieveMeaning.MeaningPreserved | backend/internal/rules/sieve.go:133-190 | whenever the compiled script is accepted, a rule with safe leaves answers alike on every message, however fields, operators and comparators were written |
| SieveMeaning.LoneMeaningExact | backend/internal/rules/sieve.go:25-286 | the script of a one-leaf rule is accepted if and only if its comparator is tidy, and the rule then keeps its meaning on all messages if and only if the leaf is safe |
| SieveMeaning.SafeLeavesExact | backend/internal/rules/sieve.go:25-286 | all accepted rules built from given leaves keep their meaning if and only if each of the leaves that can be in one is safe |
| SieveMeaning.MissingComparatorChangesMeaning | backend/internal/rules/sieve.go:183-190 | for every value, a rule without comparator matches a message that the rule parsed back from its script does not |
| SieveRequires.RequiresOnlyUsed | backend/internal/rules/sieve.go:30-52 | the script a compiled text spells requires no extension it does not use |
| SieveRequires.RequiresUsedExact | backend/internal/rules/sieve.go:71-131 | it requires an extension it uses if and only if an action calls for it or a printed use in the tree comes with one the check notices |
| SieveRequires.ShapedRequiresExactly | backend/internal/rules/sieve.go:71-131 | rules in the parser's shape require exactly the extensions they use |
| SieveRequires.PaddedFieldUnnoticed | backend/internal/rules/sieve.go:103-116 | a rule with a padded body field compiles to a script that uses `body` and does not require it |
| RulesEngine.Evaluate | backend/internal/rules/engine.go:53-81 | matched names and applied actions are those of the enabled, in-scope, matching rules in stable Order up to the first stop |
| RulesEngine.UpToStopExact | backend/internal/rules/engine.go:64-78 | the evaluated rules are a prefix of the firing ones, cut exactly after the first that stops |
| Sorting.SortStable | backend/internal/rules/engine.go:53-56 | elements the order does not tell apart keep their relative order |
| Sorting.SortSameExact | backend/internal/rules/engine.go:53-56 | two arrangements sort alike if and only if elements the order does not tell apart come in the same order in both |
| RulesEngine.EvaluationIgnoresListing | backend/internal/rules/engine.go:53-81 | two listings in which the rules of each Order come in the same order evaluate alike, however the Orders are mixed |
| RulesEngine.DistinctOrdersPermute | backend/internal/rules/engine.go:53-81 | with distinct Orders the outcome is the same for every permutation of the rules |
| ContactModel.ETagInjective | backend/internal/contacts/contacts.go:8-10 | an ETag identifies its revision |
| ContactModel.PhoneDigits | backend/internal/contacts/dedupe.go:20-32 | keeps the digits, and only the last ten when there are ten or more |
| ContactModel.PhonePrefixIgnored | backend/internal/contacts/dedupe.go:14-32 | a number of ten or more digits matches itself behind any prefix and with other characters put in |
| ContactModel.MatchKeys | backend/internal/contacts/dedupe.go:46-59 | lists exactly the normalized non-blank emails and phones |
| UnionFind.Forest.Find | backend/internal/contacts/dedupe.go:320-326 | terminates, returns the class representative and changes no class although it halves the path |
| UnionFind.Forest.Union | backend/internal/contacts/dedupe.go:328-333 | joins the two classes and no others |
| UnionFind.HalvingKeeps | backend/internal/contacts/dedupe.go:320-326 | redirecting an element to its grandparent keeps every representative and strictly grows the rank, which is why find terminates |
| UnionFind.LinkingJoins | backend/internal/contacts/dedupe.go:328-333 | hanging one root below another yields exactly the joined partition |
| DuplicateGraph.FindDuplicateGroups | backend/internal/contacts/dedupe.go:67-114 | returns exactly the connected components of at least two contacts, each once, ascending, ordered by first index |
| DuplicateGraph.GroupsUnique | backend/internal/contacts/dedupe.go:61-66 | that description determines the groups |
| DuplicateGraph.JoinKeys | backend/internal/contacts/dedupe.go:70-80 | afterwards all contacts sharing an email or phone are in one class, and classes stay within components |
| DuplicateGraph.JoinNames | backend/internal/contacts/dedupe.go:82-97 | afterwards every link is inside a class, and classes stay within components |
| ContactMerge.MergeGroup | backend/internal/contacts/dedupe.go:144-189 | returns the specified survivor and the other members' UIDs |
| ContactMerge.UnionBy | backend/internal/contacts/dedupe.go:200-262 | the in-place union keeps the first item of each key and drops those without one |
| ContactMerge.UniqueByExact | backend/internal/contacts/dedupe.go:200-262 | a union has exactly the keys of its items, each once, and no item of its own |
| ContactMerge.FirstNonEmptyExact | backend/internal/contacts/dedupe.go:191-198 | the first non-empty value, and empty only if all are |
| ContactMerge.MergedUIDsOf | backend/internal/contacts/dedupe.go:266-287 | collecting the provenance in a set and sorting it gives the specified list, whatever order the set is read in |
| ContactStore.Store.UpsertLocked | backend/internal/contacts/store.go:178-221 | the new state: one record replaced or appended under the next revision, CreatedAt and the self mark kept from the existing one |
| ContactStore.Store.UpsertWithPrecondition | backend/internal/contacts/store.go:147-161 | writes exactly when the precondition holds of the state before, else changes nothing |
| ContactStore.Store.Delete | backend/internal/contacts/store.go:226-247 | the record with that UID becomes a tombstone under the next revision |
| ContactStore.Store.SetSelf | backend/internal/contacts/store.go:258-305 | the new state: other marks cleared first, each flip under its own revision |
| ContactStore.Store.ChangedSince | backend/internal/contacts/store.go:328-349 | live and deleted records newer than the cursor, the new cursor, and whether the cursor is too old |
| ContactStore.Store.GC | backend/internal/contacts/store.go:442-474 | drops the expired tombstones and raises the watermark to the highest dropped revision |
| ContactStore.Store.Dedupe | backend/internal/contacts/store.go:371-437 | merges the duplicate groups of the live contacts at their store positions, and reports them |
| ContactBook.UpsertBook | backend/internal/contacts/store.go:178-221 | in the map by UID exactly one entry is set, live and under the next revision, with the creation time and self mark of what it replaces |
| ContactBook.DeleteBook | backend/internal/contacts/store.go:226-247 | the entry stays as a cleared tombstone under the next revision; an unknown UID changes nothing |
| ContactBook.SelfSetBook | backend/internal/contacts/store.go:258-305 | nothing but marks, and the revision and update time of the records whose mark flipped, changes |
| ContactBook.PurgeBook | backend/internal/contacts/store.go:442-474 | exactly the expired tombstones leave the map, and the watermark is the highest revision that left or the old one |
| ContactStore.MappedGroups | backend/internal/contacts/store.go:379-406 | groups found in the list of live contacts are the groups of the live positions in the store |
| ContactRuns.StepKeeps | backend/internal/contacts/store.go:178-474 | every operation keeps UIDs and revisions distinct and within the counter, gives what it touches a newer revision, and accounts for what disappears |
| ContactRuns.RunKeeps | backend/internal/contacts/store.go:178-474 | the same over every run |
| ContactRuns.DeltaConverges | backend/internal/contacts/store.go:328-349 | a replica equal to the live set when its cursor was issued equals the live set now after applying the changes since, unless the cursor is too old |
| ContactRuns.ClientConverges | backend/internal/contacts/store.go:323-349 | over every run of operations and polls, a client that starts empty holds exactly the live contacts after each poll |
| ContactRuns.SupersededStaysGone | backend/internal/contacts/store.go:178-247 | a superseded revision never returns, through tombstones, purges and re-creation |
| ContactRuns.NoLostUpdate | backend/internal/contacts/store.go:142-161 | over any run at most one conditional write with a given UID and ETag succeeds |
| SelfMark.SelfSetExact | backend/internal/contacts/store.go:249-305 | marking leaves exactly that contact marked; unmarking touches no other |
| SelfMark.RunSelfExact | backend/internal/contacts/store.go:178-474 | throughout a run at most one contact is marked if and only if no write creates a marked contact while one is marked |
| SelfMark.PassSelfExact | backend/internal/contacts/store.go:411-424 | after a pass a contact is marked if and only if it was and has not been absorbed |
| SelfMark.MarkSurvivesExact | backend/internal/contacts/dedupe.go:144-147 | the marked contact is still there after a pass if and only if no member of its qualifying group is older |
| SelfMark.MarkLost | backend/internal/contacts/store.go:411-424 | a store of two contacts in which merging leaves nobody marked |
| DedupeEffect.PassEffect | backend/internal/contacts/store.go:392-429 | every member of a qualifying group becomes the survivor or a tombstone, every other contact is unchanged |
| DedupeEffect.AbsorbedExact | backend/internal/contacts/dedupe.go:149-152 | every member but the survivor is absorbed, and nothing else |
| DedupeEffect.SurvivorOldest | backend/internal/contacts/dedupe.go:144-147 | the survivor keeps the identity of a member that no other member is older than |
| DedupeEffect.SurvivorKeys | backend/internal/contacts/dedupe.go:177-178 | the survivor can be matched by exactly the emails and phones of its members |
| DedupeEffect.SurvivorScalar | backend/internal/contacts/dedupe.go:155-175 | a scalar is empty only if no member has it, and otherwise comes from a member that no member having it is newer than |
| DedupeEffect.SurvivorProvenance | backend/internal/contacts/dedupe.go:266-287 | MergedUIDs are the absorbed UIDs and the members' earlier provenance, without the survivor, each once, sorted |
| DedupeIdempotence.SurvivorStands | backend/internal/contacts/dedupe.go:144-189 | whatever could link a survivor could already link a member of its group, even when the unions emptied its lists |
| DedupeIdempotence.SurvivorIsolated | backend/internal/contacts/dedupe.go:67-114 | after the pass a survivor is linked to no other live contact |
| DedupeIdempotence.GroupFoundExact | backend/internal/contacts/dedupe.go:67-137 | the groups found after the pass are exactly those found before it that did not qualify |
| DedupeIdempotence.NothingFoundExact | backend/internal/contacts/store.go:365-371 | a second run finds no duplicates if and only if every group of the first one qualified |
| DedupeIdempotence.ChainFoundAgain | backend/internal/contacts/dedupe.go:116-137 | a chain of three contacts of different names is found, not merged, and found again |
| DedupeIdempotence.DedupeIdempotent | backend/internal/contacts/store.go:365-437 | a second run merges nothing and changes nothing |
| DedupeConservation.KeysConserved | backend/internal/contacts/store.go:392-429 | the email and phone keys over live contacts are unchanged |
| DedupeConservation.ScalarConserved | backend/internal/contacts/dedupe.go:155-175 | a scalar some member has, the survivor has |
| DedupeConservation.ListsConserved | backend/internal/contacts/dedupe.go:179-185 | the survivor has exactly the addresses, messengers, websites, relations, events and custom fields of its members |
| DedupeConservation.GroupIDsConserved | backend/internal/contacts/dedupe.go:180-180 | and exactly their non-empty contact groups |
| DedupeConservation.ProvenanceConserved | backend/internal/contacts/dedupe.go:264-287 | after the pass the survivor names every other member and all they had absorbed |
| DedupeConservation.LosersNameSurvivor | backend/internal/contacts/store.go:415-424 | each loser is a cleared tombstone whose MergedInto is its group's survivor, live when the pass ends |
| DedupeConservation.ReportCounts | backend/internal/contacts/store.go:426-428 | the reported count is the number of contacts that stopped being live |
| MailCache.Store.Sync | backend/internal/mailcache/store.go:129-220 | new window and delta as specified, one mailbox only |
| MailCache.Store.Upsert | backend/internal/mailcache/store.go:232-304 | new window as specified; an empty batch changes nothing |
| MailCache.Store.Snapshot | backend/internal/mailcache/store.go:84-108 | the newest entries, and whether the window is full and every one of them has a body |
| MailCacheSync.SyncedExact | backend/internal/mailcache/store.go:149-200 | the window holds exactly the live messages, each new, refreshed under a newer revision, or unchanged, and never loses what only the warm path knows |
| MailCacheSync.RunFollows | backend/internal/mailcache/store.go:110-304 | every window of every run is ordered by UID with revisions within the counter, and later windows follow earlier ones |
| MailCacheSync.FirstRevExact | backend/internal/mailcache/mailcache.go:45-52 | FirstRev is at most an earlier counter if and only if the UID was in every window since then |
| MailCacheSync.DeltaLists | backend/internal/mailcache/store.go:204-219 | an entry is reported exactly when it changed after the cursor, as new exactly when its UID arrived after it; removed are the fallen-out ones |
| MailCacheSync.DeltaExact | backend/internal/mailcache/store.go:110-220 | for a client that has the entries its cursor stands for and perhaps others, a poll shows every live message, and exactly the live list if and only if all it showed is live or was in the compared window |
| MailCachePollers.EveryPollExact | backend/internal/mailcache/store.go:110-304 | the same for every poll of every run of any clients, limits and warming writes |
| MailCachePollers.AlwaysLiveExact | backend/internal/mailcache/store.go:110-304 | over a run a client among others shows exactly the live list after each of its polls if and only if each message live at one is live or in the compared window at the next |
| MailCachePollers.SecondPollerHidesRemoval | backend/internal/mailcache/store.go:129-220 | a run in which another client's poll drops a message that the first client goes on showing |
| MailCacheSync.SinglePollerHoldsLive | backend/internal/mailcache/store.go:110-304 | a single poller with a fixed limit and no overflow holds the live list after every poll, with writers in between |
| MailCacheSync.SnapshotIsLive | backend/internal/mailcache/store.go:78-108 | right after a poll the read path shows the live list and vouches for it only when full and warm |
| MailCacheSync.PollAgain | backend/internal/mailcache/store.go:149-219 | polling again with nothing new changes nothing and reports nothing |
| MailCacheSync.UpsertRetains | backend/internal/mailcache/store.go:222-304 | without overflow a warming write takes no UID out of the window |
| MailCacheSync.WarmExact | backend/internal/mailcache/store.go:263-297 | one arriving entry touches only its UID: new entries get a new revision, a body is attached without one, changed metadata gets one, and an empty body erases nothing |
| MailCacheSync.CapKeepsNewest | backend/internal/mailcache/store.go:298-301 | the cap drops the lowest UIDs only |
| RateLimiter.Limiter.AllowByRate | backend/internal/processor/poller.go:1253-1279 | the decision and the new log of that user only |
| RateLimiter.DecidesAsFullHistory | backend/internal/processor/poller.go:1260-1275 | the trimmed log decides as the full history of accepted calls would |
| RateLimiter.RateBound | backend/internal/processor/poller.go:1251-1279 | any half-open minute holds at most PerMinute accepted calls of a user and any half-open hour at most PerHour |
| LoginLockout.Lockout.CheckAllowed | backend/internal/api/login_lockout.go:97-108 | refuses exactly while a lockout runs, with the time left |
| LoginLockout.Lockout.RecordFailure | backend/internal/api/login_lockout.go:114-137 | the new entries, including the housekeeping sweep |
| LoginLockout.Lockout.RecordSuccess | backend/internal/api/login_lockout.go:139-145 | the key's strikes and lockout are gone, all others stay |
| LoginLockout.LockHolds | backend/internal/api/login_lockout.go:97-137 | once locked out, no failure of the key is recorded before the lockout ends |
| LoginLockout.LockoutSpacing | backend/internal/api/login_lockout.go:70-137 | any maxFailures + 1 consecutive failures of a key span at least the lockout time when no sweep drops its strikes |
| LoginLockout.SpacingExact | backend/internal/api/login_lockout.go:52-137 | all runs of at most a number of keys keep that spacing if and only if those are fewer than 10000, or one failure locks out, or a lockout lasts no time |
| LoginLockout.SweepSparesLocked | backend/internal/api/login_lockout.go:45-63 | a sweep never frees a key that is locked at that moment |
| LoginLockout.SweepForgetsStrikes | backend/internal/api/login_lockout.go:117-124 | a sweep of a partial count makes the next failure the first again |
| PullQueue.Store.EnqueuePullNotification | backend/internal/state/store.go:437-454 | stamps the next number and a creation time if there is none, and trims to the newest 100 |
| PullQueue.Store.PullNotificationsAfter | backend/internal/state/store.go:459-470 | the stored notifications after the cursor, and the new cursor |
| PullQueue.StoredNumbers | backend/internal/state/store.go:437-454 | the stored numbers are exactly the last min(pullSeq, 100), in order |
| PullQueue.ReaderOrderly | backend/internal/state/store.go:456-470 | over any run a reader sees each notification at most once, in order, and as it was enqueued |
| PullQueue.CompleteExact | backend/internal/state/store.go:437-470 | it has received everything up to its cursor if and only if it was at most 100 behind at every poll |
| PullQueue.FreshReader | backend/internal/state/store.go:437-470 | the same, and the order, for a new store and a reader that starts at cursor 0 |
| PushRelay.Registry.MintKey | push-relay-shared/push-relay-common.ts:351-372 | stores the record under the key's hash and indexes it by identifier |
| PushRelay.Registry.RevokeKeyById | push-relay-shared/push-relay-common.ts:484-500 | removes the key, its identifier, and its address entry only if that still points to it |
| PushRelay.Registry.HandleRegister | push-relay-shared/push-relay-common.ts:412-452 | registers when open and within the limit, superseding the bucket's earlier key, else changes nothing |
| PushRelay.Registry.CheckTokenBinding | push-relay-shared/push-relay-common.ts:199-214 | decides as specified by the claim and the claiming key's record |
| PushRelay.Registry.ClaimTokenForSend | push-relay-shared/push-relay-common.ts:242-254 | the result and the new claim |
| PushRelay.Registry.ReleaseToken | push-relay-shared/push-relay-common.ts:222-226 | the token's claim is gone, all others stay |
| PushRelay.ClaimExact | push-relay-shared/push-relay-common.ts:195-254 | a claim is refused if and only if another active key owns the token, and otherwise makes the claimant its owner |
| PushRelay.RunKeeps | push-relay-shared/push-relay-common.ts:351-500 | key, identifier and address indexes stay mutually consistent on every run |
| PushRelay.OneKeyPerBucket | push-relay-shared/push-relay-common.ts:402-452 | each non-empty address bucket has at most one key |
| PushRelay.RegisterKeeps | push-relay-shared/push-relay-common.ts:412-452 | after registering, the new key is the only one of its bucket and no claim changed |
| PushRelay.TokenStaysPinned | push-relay-shared/push-relay-common.ts:185-254 | over any run a claimed token is never granted to another key until its owner is revoked, superseded or expired, or the claim is released |

## Left out

- Disk files, JSON, locks and re-reading from other processes: every locked method is one atomic step on memory, and storing always succeeds.
- IMAP, SMTP, HTTP, CAPTCHA, push delivery and the language model client: network plumbing.
- `ApplyOutcome` of the rules engine (backend/internal/rules/engine.go:97-125): a thin mapping to mail client calls.
- The regexp library: `Patterns` passes the glob and regex matchers in as functions, about which nothing is assumed.
- `strconv.IsPrint` beyond U+00FF: the parameter `wide` of the compiler says which of those characters print; every result holds for any choice.
- Unicode case mapping: `Text` maps ASCII and the three code points whose lower case or fold is an ASCII letter, which makes comparisons with ASCII words exact; other letters keep their case.
- Error texts: errors carry a reason and the line number, not the English message.
- Timestamps are integers (0 is the empty string in the address book); RFC 3339 text is not modelled, so an unparsable UpdatedAt is only the empty one.
- int64 overflow of the counters is not modelled.
- Order of records that an unstable sort may leave either way: equal rule Orders, contacts with equal UpdatedAt and Rev and live lists with repeated UIDs are sorted stably here, while `sort.Slice` does not promise it.
- The -1 that `Dedupe`'s byUID returns for an unknown UID (which would panic): never reached for distinct UIDs, as `ContactRuns.MemberPosition` shows.
- `Search`, `List` and `GetSelf` of the address book, the vCard and CardDAV mapping: single loops that would add easy members.
- Pointers to mailbox windows: the mail cache's map holds windows as values, which nothing else can reach.
- `ipBucket` and `resolveExpiry` of the relay: the address bucket and the expiry are passed in; `handleAdminCreate` is the step `Create`.
- Eventual consistency of the relay's key-value store: handlers are atomic, so the simultaneous-first-send race the program's own comment mentions is outside the model.
- The relay's `enabled` flag is never cleared by a handler; a record with it cleared counts as inactive here as there.
- LockoutSpacing: assumes that no sweep drops strikes of the key that are not a lockout yet; `SpacingExact` says when runs are free of that. A successful login of the key in between is left out.
