# Verified models of contractor-ops algorithms

The repository is mostly wiring around a small number of self-contained algorithms. This project models those
algorithms in Dafny and proves what their callers and their comments rely on. `dafny verify dfyconfig.toml` verifies
all of it.

## What is modelled

- **Guard for raw SQL** (`Text`, `CommentStripper`, `LineScan`, `CallForms`, `CallBodies`, `SourceForms`,
  `RawSqlGuard`). Comments are blanked, calls and their bodies are read off the stripped source, line numbers and
  annotations off the raw one. Stripping keeps every position, is idempotent and blanks exactly the comments by a
  grammar of sources; what is captured is exactly the body of a call by a grammar of its forms; the backward line scan
  is split-filter-reverse, and the scan of a file reports exactly the calls that offend.
- **Argument readers** (`ArgReader`) of the two translation audits: they run in lockstep, stop exactly where an
  argument ends by a grammar of arguments, and read a printed list back.
- **Message bundles** (`JsonTree` on values, `BundleHeap` in place, `LeafEnum`, `KeyPurge`, `KeyAudit`). The editors
  change a heap of objects; they are proved against deletion and storing on values, and those against what can be read
  afterwards. The enumerators are related to lookup. Auditing and then deleting loses nothing that is used from the
  audited bundle, and from that of another locale exactly what lies below a reported key.
- **ICU placeholders** (`IcuPlaceholders`, `UnbalancedIcu`, `PlaceholderAudit`): the result of the extractor on every
  text, balanced or not, and when two texts are reported to differ.
- **Sign-in lockout** (`SignInLockout`): the hooks on the user table, the rate bound for attempts that do not overlap,
  and when an account is locked in any interleaving.
- **Deep freeze** (`Reachability`, `DeepFreeze`, `FreezeOrder`): which objects are frozen, when that is everything in
  reach, and when the recursion ends at all.
- **File names and indices** (`Digits`, `ScreenshotPaths`, `ShotIndexRegistry`), **moving imports** (`ImportBlocks`,
  `ImportRepair`), **edits by offset** (`EditApply`, `Sorting`, `Sequences`), **pricing plans and their cache**
  (`PricingCache`) and **payment reasons** (`PaymentGate`).

A loop of the source is a method with the same loop, proved against a function or predicate; objects that are updated
in place are classes. Text is a sequence of characters, and an exception is an error result.

## Where code and comments part

The models follow the code.

- `scripts/check-raw-sql-tenant-scoped.ts:265-267` says that references inside string literals are not scanned; the code
  copies literals as they are. A call within a literal is found, and a whole one is reported unless it is excused
  (`RawSqlGuard.QuotedCallIsReported`; `'$queryRaw(x)'` is an input for it, `RawSqlGuard.QuotedCallExample`).
- A call is missed if and only if it is in a comment (`RawSqlGuard.CallsOutsideComments`) as the grammar of
  `SourceForms` has it. That grammar, like the scanner, knows no regular expression literals: a quote, `//` or `/*` in
  one starts a literal or a comment, so that code behind it can be missed (`RawSqlGuard.RegexHidesCall`).
- The comment on the lockout UPDATE says an existing lock is not extended; from the fifth failure on every further one
  overwrites it, and the UPDATE that comes last decides (`SignInLockout.LastUpdateDecides`), even with an earlier time:
  an account can be open right after its sixth failure (`SignInLockout.StaleUpdateOpens`).
- The rate bound holds for attempts that do not overlap (`SignInLockout.SoloRateBound`). The gate and the UPDATE are
  separate steps, so w attempts in flight let 4 + w pass at one instant (`SignInLockout.OverlapBreaksBound`).
- "Up to `max`" arguments are returned if and only if `max` is not zero or there is no first argument
  (`ArgReader.LimitKeptIff`). The two call sites, `scripts/audit-i18n-unused-keys.ts:474` and `:509`, pass 3 and 4.
- Deleting what was stored restores a bundle only if there was room for it: an empty object on the way is pruned away,
  and a text on the way is lost (`JsonTree.DeleteUndoesPut` gives the exact condition).
- A screenshot name is read back only under the conditions of `ScreenshotPaths.ScreenshotRoundTrip`; an index of four
  digits is not, neither is a variant like `mobile-dark`, nor a viewport, which is typed as any string, that is not one
  of the three in the pattern.
- A frozen object hides what is behind it from a deep freeze, and a freeze never ends if and only if some walk of
  unfrozen objects comes to an object twice (`FreezeOrder.EndsIffNoRepeat`).

## Model

| member | source | states |
|---|---|---|
| CommentStripper.StripComments | scripts/check-raw-sql-tenant-scoped.ts:230-308 | the whole scanner, with its five nested loops, emits exactly what a one-step-at-a-time scanner emits from the start of the source |
| CommentStripper.BlankBlock | scripts/check-raw-sql-tenant-scoped.ts:238-257 | from inside a block comment: the output and position after the loop continue to the same final text as those before it |
| CommentStripper.BlankLine | scripts/check-raw-sql-tenant-scoped.ts:259-269 | the same for a line comment, which ends in front of its newline |
| CommentStripper.CopyLiteral | scripts/check-raw-sql-tenant-scoped.ts:271-302 | the same for a literal: escapes are copied in pairs, and an interpolation of a template is handed on |
| CommentStripper.CopyInterpolation | scripts/check-raw-sql-tenant-scoped.ts:283-297 | the same for the inside of an interpolation, at any depth of braces |
| CommentStripper.StripBlanks | scripts/check-raw-sql-tenant-scoped.ts:221-229 | the output has the length of the input; every character is the original or a space, and no newline appears or disappears |
| SourceForms.BlockCommentLaw | scripts/check-raw-sql-tenant-scoped.ts:238-252 | in front of any text, plain code and a block comment become the code, the comment with everything between its ends blanked but for newlines, and the stripped text |
| SourceForms.LineCommentLaw | scripts/check-raw-sql-tenant-scoped.ts:254-263 | a line comment behind plain code keeps its slashes and is blanked to the end of its line, whatever quotes or comment signs are in it |
| SourceForms.LiteralLaw | scripts/check-raw-sql-tenant-scoped.ts:265-302 | in front of any text, plain code and a literal are copied with all escapes, interpolations, comments and calls in it |
| SourceForms.StrippedIsBare | scripts/check-raw-sql-tenant-scoped.ts:221-308 | stripping what is written by a grammar of letters, block and line comments and literals, closed or not, gives the same with exactly the text of the comments blanked |
| SourceForms.EveryTextIsSource | scripts/check-raw-sql-tenant-scoped.ts:230-308 | every text at all is written by this grammar, and its comments stand at the same places however it is read |
| SourceForms.BlankedIffInComment | scripts/check-raw-sql-tenant-scoped.ts:221-308 | a character is blanked if and only if it is in the text of a comment of the grammar |
| CommentStripper.StripKeepsPlace | scripts/check-raw-sql-tenant-scoped.ts:358-361 | any token without spaces that occurs in the stripped source occurs at the same offset in the raw one |
| CommentStripper.StripAgain | scripts/check-raw-sql-tenant-scoped.ts:230-308 | from any position and mode, scanning the output again reproduces it |
| CommentStripper.StripIdempotent | scripts/check-raw-sql-tenant-scoped.ts:230-308 | stripping twice is stripping once |
| LineScan.LineNumberAt | scripts/check-raw-sql-tenant-scoped.ts:187-193 | the counter is the number of parts the text before the offset has when split at newlines, also past the end |
| LineScan.StartOfLine | scripts/check-raw-sql-tenant-scoped.ts:204-211 | the backward loop stops at the start of the line: no newline between, and one just before |
| LineScan.PreviousNonBlankLines | scripts/check-raw-sql-tenant-scoped.ts:202-219 | the backward scan returns the last `maxLines` non-blank lines above the line of the offset, closest first, as split, filter, reverse and take give them |
| LineScan.StrippedLineIsRawLine | scripts/check-raw-sql-tenant-scoped.ts:358-368 | every offset is on the same line of the stripped and of the raw source |
| CallBodies.CaptureBody | scripts/check-raw-sql-tenant-scoped.ts:89-185 | the capture returns exactly what stands between the delimiters of a call: behind white space and optional balanced generics, a template or an argument list with everything that may stand in one; nothing if and only if there is no such call |
| CallBodies.SkipBrackets | scripts/check-raw-sql-tenant-scoped.ts:99-112 | stops right behind the bracket that matches the first one, if there is one, and at the end of the text if there is none |
| CallBodies.FindTemplateClose | scripts/check-raw-sql-tenant-scoped.ts:119-146 | returns exactly the position at which the template ends: what is before it is made of characters, escapes and interpolations with matching braces, and nothing is returned if and only if no position is such an end |
| CallBodies.FindParenClose | scripts/check-raw-sql-tenant-scoped.ts:148-181 | returns exactly the position at which the argument list ends: what is before it is made of characters, matching parentheses and whole literals; nothing if and only if there is no such end |
| CallBodies.FindLiteralClose | scripts/check-raw-sql-tenant-scoped.ts:166-177 | stops at the quote that ends the literal, past escapes, or at the end of the text if and only if nothing ends it |
| CallBodies.SkipInterpolation | scripts/check-raw-sql-tenant-scoped.ts:129-138 | stops right behind the brace that matches the opening one, or at the end of the text if there is none |
| CallForms.CaptureFindsCall | scripts/check-raw-sql-tenant-scoped.ts:89-185 | at every position: there is at most one call to capture, it is captured if there is one, and nothing is captured otherwise |
| CallForms.CapturedIsBody | scripts/check-raw-sql-tenant-scoped.ts:89-185 | a text is captured between two given positions if and only if they are the delimiters of a call behind the start |
| CallForms.BracketCloseIsMatch | scripts/check-raw-sql-tenant-scoped.ts:99-112 | a count of open brackets comes to its end at a position if and only if all brackets before it match |
| CallForms.TemplateCloseIsEnd | scripts/check-raw-sql-tenant-scoped.ts:119-146 | the backtick found is the one that ends the template: parsing what is before it and passing over a printed inside are inverse |
| CallForms.ParenCloseIsEnd | scripts/check-raw-sql-tenant-scoped.ts:148-181 | the same for the parenthesis that ends an argument list |
| CallForms.LiteralCloseIsEnd | scripts/check-raw-sql-tenant-scoped.ts:166-177 | the same for the quote that ends a literal |
| CallBodies.TemplateBodyIsRaw | scripts/check-raw-sql-tenant-scoped.ts:221-229 | what is captured from stripped source for a template that starts in code is the raw text between its backticks: nothing inside was blanked |
| CallBodies.TemplateCapturedAlike | scripts/check-raw-sql-tenant-scoped.ts:322-330 | a template that starts in code is captured alike from the stripped and from the raw source |
| RawSqlGuard.CallsOutsideComments | scripts/check-raw-sql-tenant-scoped.ts:313-330 | at every offset of every file: the stripped source has a call there if and only if the raw one has and it is not in a comment by the grammar, and it is the same call; stripping loses and makes none |
| RawSqlGuard.CallIsReported | scripts/check-raw-sql-tenant-scoped.ts:313-371 | every call outside comments whose body, with the comments in it blanked, is that of a template or an argument list is reported if and only if it offends, with that body and the line of the raw source |
| RawSqlGuard.NothingElseIsReported | scripts/check-raw-sql-tenant-scoped.ts:313-334 | nothing is reported where there is no call, only one in a comment, or one without a body |
| RawSqlGuard.RegexHidesCall | scripts/check-raw-sql-tenant-scoped.ts:254-263 | a regular expression is no form of its own: two slashes at its end hide the call behind it on the line |
| SourceForms.LiteralIsNoComment | scripts/check-raw-sql-tenant-scoped.ts:265-302 | no character of a literal, whatever stands in it, is in a comment |
| RawSqlGuard.UncommentedCallIsReported | scripts/check-raw-sql-tenant-scoped.ts:313-371 | as a special case, every call none of whose characters is in a comment is reported if and only if it offends, with the body and line of the raw source |
| RawSqlGuard.QuotedCallIsFound | scripts/check-raw-sql-tenant-scoped.ts:265-302 | every call anywhere within a literal is found as in the raw text |
| RawSqlGuard.QuotedCallIsReported | scripts/check-raw-sql-tenant-scoped.ts:313-371 | every whole call within a literal is reported if and only if it offends, as any other |
| RawSqlGuard.QuotedCallExample | scripts/check-raw-sql-tenant-scoped.ts:265-267 | a file that only mentions a call in a literal is reported for it under all tests that take its argument neither for a tenant nor for a fragment |
| RawSqlGuard.ScanFile | scripts/check-raw-sql-tenant-scoped.ts:310-375 | the offences reported are exactly, in order, those of every offset: a call with a body that names no tenant, is not composed in a file that does, and has no annotation on the raw lines above; the two early exits miss none |
| RawSqlGuard.CheckCall | scripts/check-raw-sql-tenant-scoped.ts:330-371 | one call yields an offence exactly when it offends, with the line of the raw source |
| RawSqlGuard.IsExcused | scripts/check-raw-sql-tenant-scoped.ts:336-361 | the three excuses are together the negation of offending |
| RawSqlGuard.NoCallNoOffence | scripts/check-raw-sql-tenant-scoped.ts:310-321 | a file whose raw or stripped text lacks the token has no offence |
| RawSqlGuard.NoCallInside | scripts/check-raw-sql-tenant-scoped.ts:326-330 | no call starts inside the identifier of another, so going on behind a match skips nothing |
| ArgReader.ReadFirstArg | scripts/audit-i18n-code-coverage.ts:232-294 | returns, trimmed, the one text from the start that is an argument by a grammar of signs, bracketed groups, literals and templates and is ended by a comma or a closing bracket; nothing if and only if there is none |
| ArgReader.ReadArgsList | scripts/audit-i18n-unused-keys.ts:191-260 | returns the arguments, by the same grammar, one up to each comma, trimmed and the empty ones left out, until one is ended by a bracket, none ends, or the limit is reached |
| ArgReader.DelimIsEnd | scripts/audit-i18n-code-coverage.ts:244-292 | the comma or bracket at which the state machine stops is exactly the one behind an argument: parsing what it passed and passing what is printed are inverse |
| ArgReader.ListIteratesFirst | scripts/audit-i18n-unused-keys.ts:191-260 | lockstep of the two readers: the list is the first-argument reader applied again behind each comma, empty arguments left out, with the limit reduced by what was read |
| ArgReader.FirstHeadsList | scripts/audit-i18n-code-coverage.ts:232-294 | a non-empty first argument heads the list, whatever the limit; with the row above, no first argument means an empty list |
| ArgReader.ListIsClean | scripts/audit-i18n-unused-keys.ts:190-260 | every element is trimmed and non-empty, and there are at most max(limit, 1) |
| ArgReader.LimitKeptIff | scripts/audit-i18n-unused-keys.ts:190-260 | the documented limit is kept if and only if it is not zero or the text has no non-empty first argument |
| ArgReader.ZeroLimitLetsOneThrough | scripts/audit-i18n-unused-keys.ts:190-191 | an input for which it is not: with a limit of zero one element is returned |
| ArgReader.ReadsBack | scripts/audit-i18n-unused-keys.ts:191-260 | reading a printed list of arguments of the grammar, none of them blank, gives them back trimmed, up to the limit |
| BundleHeap.Bundle.DeleteAt | scripts/delete-i18n-keys.ts:38-64 | the in-place deletion with its trail and backward pruning leaves the tree that deleting the path from the value gives; it reports success exactly when the path was present, returns the old value, and on failure changes no object |
| BundleHeap.Follow | scripts/delete-i18n-keys.ts:41-49 | the walk records exactly the objects at the prefixes of the path, or fails exactly when the path is absent |
| BundleHeap.TakeLast | scripts/delete-i18n-keys.ts:50-52 | the value removed is the one that was at the path |
| BundleHeap.PruneStep | scripts/delete-i18n-keys.ts:54-61 | one step of the pruning loop removes the field exactly when it holds an empty object, and keeps the rest of the heap tree |
| BundleHeap.PruneParents | scripts/delete-i18n-keys.ts:53-62 | the whole loop prunes as the value-level pruning does |
| BundleHeap.PruneUpIsDelete | scripts/delete-i18n-keys.ts:50-62 | removing the last key and then pruning from below upwards is the recursive deletion |
| BundleHeap.Bundle.SetDeep | scripts/apply-i18n-code-coverage-fix.ts:852-864 | the cursor walk with in-place assignments leaves the tree that storing at the path in the value gives, and allocates only new objects |
| BundleHeap.PutText | scripts/apply-i18n-code-coverage-fix.ts:852-864 | the same from any object of the tree on |
| BundleHeap.StepInto | scripts/apply-i18n-code-coverage-fix.ts:855-862 | one step makes an object where there is none and moves into it |
| BundleHeap.PutOver | scripts/apply-i18n-code-coverage-fix.ts:856-862 | storing through a fresh object on the way is storing |
| BundleHeap.Bundle.GetPath | scripts/audit-i18n-code-coverage.ts:67-76 | the lookup loop finds the value at the path exactly when it is present |
| BundleHeap.Read | scripts/audit-i18n-unused-keys.ts:82-91 | the same from any value |
| JsonTree.DeleteTerminals | scripts/delete-i18n-keys.ts:38-64 | afterwards the non-object values are the old ones minus those at or under the path, unchanged |
| JsonTree.DeleteRemoves | scripts/delete-i18n-keys.ts:43-45 | a failed delete changes nothing, a successful one leaves the path absent |
| JsonTree.DeleteKeepsNoEmpty | scripts/delete-i18n-keys.ts:53-62 | if no object below the root was empty before, none is after: pruning is complete |
| JsonTree.DeletesCommute | scripts/delete-i18n-keys.ts:122-129 | two deletions commute, for every pair of paths, also when one lies under the other |
| JsonTree.PutTerminals | scripts/apply-i18n-code-coverage-fix.ts:852-864 | afterwards the path reads the value, everything at a proper prefix or extension is gone, and every other value is unchanged |
| JsonTree.PutReads | scripts/apply-i18n-code-coverage-fix.ts:852-864 | the path reads the stored value |
| JsonTree.DeleteUndoesPut | scripts/apply-i18n-code-coverage-fix.ts:852-864 | deleting what was just stored restores the tree if and only if the path was absent and the deepest value present on the way was an object that is the root or not empty |
| JsonTree.TerminalsDetermine | scripts/delete-i18n-keys.ts:53-62 | without empty objects below the root, a tree is determined by its non-object values |
| KeyPurge.DeleteKeys | scripts/delete-i18n-keys.ts:119-129 | the key loop leaves the tree of all deletions in order; `deleted` counts the keys found and `missing` the rest |
| KeyPurge.DeleteAnyOrder | scripts/delete-i18n-keys.ts:122-129 | any permutation of the keys leaves the same tree |
| KeyPurge.DeleteAllTerminals | scripts/delete-i18n-keys.ts:122-129 | what is left is exactly what lies neither at nor under a deleted key, unchanged |
| KeyPurge.DeleteAllKeepsNoEmpty | scripts/delete-i18n-keys.ts:53-62 | a whole list of deletions leaves no empty object below the root |
| KeyPurge.ApplyTranslations | scripts/apply-i18n-code-coverage-fix.ts:878-881 | the loop leaves the tree of all stores in order |
| KeyPurge.PutAllLast | scripts/apply-i18n-code-coverage-fix.ts:878-881 | what is at a path afterwards is decided by the last entry at, above or below it |
| KeyPurge.PutAllUntouched | scripts/apply-i18n-code-coverage-fix.ts:878-881 | paths that no entry lies at, above or below keep their values |
| KeyPurge.PutAllReads | scripts/apply-i18n-code-coverage-fix.ts:878-881 | with distinct keys a translation is readable afterwards if and only if no later key lies above or below its own |
| LeafEnum.Walk | scripts/audit-i18n-code-coverage.ts:99-109 | yields exactly the spellings of the paths to values that are neither objects nor null, each once if keys are non-empty and dot-free; `leaves` of the other script is the same generator |
| LeafEnum.Flatten | scripts/audit-translations.ts:44-63 | the set of the spellings of the paths to everything but objects, null included |
| LeafEnum.LeavesUnder | scripts/audit-i18n-code-coverage.ts:93-97 | the keys under a dotted prefix are those of the whole bundle that lie at or under it |
| LeafEnum.UnderInjective | scripts/audit-i18n-code-coverage.ts:105-108 | dot-joined spellings of different paths of non-empty, dot-free keys differ |
| LeafEnum.UnderReadsBack | scripts/audit-i18n-code-coverage.ts:67-76 | the dot-joined spelling of a path is split into that path again if and only if no key of it holds a dot and the first of several is not empty |
| LeafEnum.EnumeratedIffFound | scripts/audit-i18n-code-coverage.ts:79-109 | in a bundle whose keys are non-empty and dot-free, a dotted key is enumerated if and only if looking it up finds a leaf or an array |
| LeafEnum.EnumeratedIffLeaf | scripts/audit-i18n-code-coverage.ts:79-109 | without arrays: if and only if `isLeaf` holds |
| LeafEnum.FlattenAgreesIffNullFree | scripts/audit-translations.ts:44-63 | on a bundle whose keys are non-empty and dot-free the presence audit and the coverage audit enumerate the same keys if and only if the bundle holds no null |
| LeafEnum.TextRootDisagrees | scripts/audit-i18n-code-coverage.ts:93-109 | a root that is no object is yielded under the empty name, which no lookup finds |
| LeafEnum.DottedKeyDisagrees | scripts/audit-i18n-code-coverage.ts:105-107 | a key with a dot in it is yielded but not found |
| KeyAudit.Audit | scripts/audit-i18n-unused-keys.ts:708-768 | the classification loop fills the report: the five counters and the sorted list of the sixth class, and one row for each namespace with a leaf, most unused first, ties in the order the namespaces first appear |
| KeyAudit.Group | scripts/audit-i18n-unused-keys.ts:740-754 | the grouping loops give exactly one row for each namespace with a leaf, in the order of their first leaves, with the number of its leaves and its unused keys in order |
| Sequences.FirstSeenOrder | scripts/audit-i18n-unused-keys.ts:740-745 | what is first seen j-th comes in with an element before which exactly the first j had been seen |
| KeyAudit.ClassesPartition | scripts/audit-i18n-unused-keys.ts:715-737 | every leaf falls in exactly one of the six classes |
| KeyAudit.RowsAddUp | scripts/audit-i18n-unused-keys.ts:740-751 | the rows total to the leaves, their unused keys to all unused keys: none is dropped by the lookup of its row |
| KeyAudit.ReportAddsUp | scripts/audit-i18n-unused-keys.ts:708-768 | the counts of a report add up to the number of leaves, overall and over the namespaces |
| KeyAudit.UnusedAreSorted | scripts/audit-i18n-unused-keys.ts:738 | the reported keys are in order and are, as a multiset, the leaves of the sixth class |
| KeyAudit.AuditThenDelete | scripts/delete-i18n-keys.ts:122-129 | deleting all reported keys, in any order, leaves exactly the leaves that are used or covered, each with its value |
| KeyAudit.ReportedKeysAreFound | scripts/delete-i18n-keys.ts:122-129 | every reported key is found: none is counted as missing |
| KeyAudit.UsedKeyLostIff | scripts/delete-i18n-keys.ts:119-129 | deleting the reported keys from the bundle of any locale takes the value of a key that is used or covered if and only if a reported key is spelled by the first parts of it |
| IcuPlaceholders.ExtractPlaceholders | scripts/audit-translations-quality.ts:131-164 | the loop with its depth counter, buffer and recursion returns what a scan without state outside its arguments defines; it terminates on every text because the recursion is on a shorter one |
| IcuPlaceholders.ExtractPrinted | scripts/audit-translations-quality.ts:126-164 | on the printed form of any tree of text and brace groups it gives exactly the identifier heads of all groups, at every depth |
| UnbalancedIcu.Decompose | scripts/audit-translations-quality.ts:131-164 | every text at all is some messages closed by unmatched `}`, a message, and messages opened by unmatched `{` |
| UnbalancedIcu.ExtractAnyText | scripts/audit-translations-quality.ts:131-164 | the exact result on every text: each unmatched `}` hides one more level of groups behind it, each unmatched `{` brings one back, and the first that is one too many hides the rest |
| UnbalancedIcu.StrayBraceHides | scripts/audit-translations-quality.ts:144-147 | one stray `}` in front hides an argument |
| PlaceholderAudit.AuditLocale | scripts/audit-translations-quality.ts:185-238 | a mismatch is reported exactly for the keys in both locales, not blank in the target, whose two name sets differ, with both differences; likewise blanks, leaks and marks |
| PlaceholderAudit.AuditKey | scripts/audit-translations-quality.ts:198-234 | one key is treated so, and no other key is touched |
| PlaceholderAudit.SameHeadsNoMismatch | scripts/audit-translations-quality.ts:206-218 | of two well-formed messages a mismatch is reported if and only if the names of their groups differ, however they are arranged |
| SignInLockout.UserTable.Gate | packages/auth/src/config.ts:528-550 | an attempt passes unless there is a row whose lock is still in the future |
| SignInLockout.UserTable.ResetFailedLoginAttempts | packages/auth/src/config.ts:45-51 | only the row of the email changes, to no failures and no lock |
| SignInLockout.UserTable.RecordFailedLogin | packages/auth/src/config.ts:62-104 | the counter goes up by one, the lock is overwritten exactly from the fifth failure on; an unknown email changes nothing; `locked_now` is logged exactly when the new row is locked |
| SignInLockout.UserTable.AfterSignIn | packages/auth/src/config.ts:553-565 | the hook resets after a session and counts otherwise |
| SignInLockout.RateBound | packages/auth/src/config.ts:27-29 | over every sequence of failing attempts made one after the other from a fresh row, whether or not blocked ones reach the after-hook, at most 5 + floor(span / 15 min) pass the gate in any span |
| SignInLockout.RateBoundIsReached | packages/auth/src/config.ts:27-29 | the bound is tight for every whole number of lock times |
| SignInLockout.AllRunsConsistent | packages/auth/src/config.ts:62-78 | over every interleaving of any number of attempts: the counter is the number of UPDATEs since the last reset, a lock is set exactly when that is at least 5, and it ends between one lock time from the start and one from now |
| SignInLockout.UpdatesCounted | packages/auth/src/config.ts:62-78 | without a success no UPDATE is lost |
| SignInLockout.FiveFailuresLock | packages/auth/src/config.ts:53-61 | however attempts interleave without a success, at any time the account is locked if and only if there were five UPDATEs and the time the last of them asked for is still to come; so for at least one lock time from the start |
| SignInLockout.SoloRateBound | packages/auth/src/config.ts:27-29 | the rate bound in the interleaved system: over every run without a success in which no two attempts are in flight together, at most 5 + floor(span / 15 min) pass the gate in any span |
| SignInLockout.OverlapBreaksBound | packages/auth/src/config.ts:528-550 | for every w there is a run with at most w attempts in flight in which 4 + w pass at one instant: two that overlap already break the bound |
| SignInLockout.AnyNumberPassAtOnce | packages/auth/src/config.ts:528-550 | from any state without a lock and with nothing in flight, any number of concurrent attempts can pass the gate at one instant |
| SignInLockout.LastUpdateDecides | packages/auth/src/config.ts:62-78 | over every run, successes included: the account is locked if and only if there were five UPDATEs since the last reset and the time that the last UPDATE asked for is still to come |
| SignInLockout.StaleUpdateOpens | packages/auth/src/config.ts:62-78 | a run without a success in which the account is locked after its fifth failure and open right after its sixth, whose time was taken a lock time earlier |
| DeepFreeze.DeepFreezeAll | packages/compliance-policy/src/freeze.ts:4-12 | wherever no walk of unfrozen objects from the root returns to an object, whatever is behind frozen ones, it ends; afterwards the frozen objects are the old ones and those reachable from the root through objects not frozen before |
| DeepFreeze.DeepFreezeNeeded | packages/classification/src/snapshot.ts:13-24 | the variant that tests before recursing freezes the same set on the same heaps |
| DeepFreeze.BuildQuestionsSnapshot | packages/classification/src/snapshot.ts:30-40 | the snapshot is a new object with the clone in it, everything reachable in it ends up frozen, and no object outside the clone is touched |
| DeepFreeze.FreezeIsVisit | packages/compliance-policy/src/freeze.ts:4-12 | the condition on the heap is exactly that the recursion on the fields ends, and what it then freezes is what the methods freeze |
| Reachability.ExactlyOpen | packages/compliance-policy/src/freeze.ts:4-12 | a traversal that froze the root, only what it can reach, and no object before its children, froze exactly what it can reach |
| Reachability.FreezeIsDeep | packages/compliance-policy/src/freeze.ts:1-12 | if frozen objects had only frozen children before, the same holds after, and everything reachable from the root is frozen |
| Reachability.FrozenRootStops | packages/compliance-policy/src/freeze.ts:5-7 | a root that is frozen already stops the freeze: nothing behind it changes |
| Reachability.DeepExactlyWhenNothingHides | packages/compliance-policy/src/freeze.ts:4-12 | everything reachable ends up frozen if and only if every frozen object in reach has only children that end up frozen |
| Reachability.NoCycleIffNoRepeat | packages/compliance-policy/src/freeze.ts:4-12 | no object in reach is reached again from one of its children if and only if every walk is free of repetition |
| FreezeOrder.VisitOrders | packages/compliance-policy/src/freeze.ts:8-11 | the recursion appends objects children first, each once, none that was frozen, and only such as are reached through unfrozen ones |
| FreezeOrder.VisitIsOpen | packages/compliance-policy/src/freeze.ts:4-12 | a recursion that ends has frozen exactly what is reached through unfrozen objects |
| FreezeOrder.EndsIffNoCycle | packages/compliance-policy/src/freeze.ts:4-12 | the recursion ends if and only if no object in reach through unfrozen ones is reached again from one of its children |
| FreezeOrder.EndsIffNoRepeat | packages/compliance-policy/src/freeze.ts:4-12 | the recursion ends if and only if no walk of unfrozen objects from the root visits an object twice; from a frozen root it always does |
| FreezeOrder.SelfReferenceNeverEnds | packages/compliance-policy/src/freeze.ts:8-9 | an unfrozen object that refers to itself is never frozen: the recursion does not end |
| FreezeOrder.FrozenHides | packages/compliance-policy/src/freeze.ts:5-7 | which objects are frozen in which order, and whether the recursion ends, depends only on the fields of objects that are not frozen |
| FreezeOrder.CycleBehindFrozenEnds | packages/compliance-policy/src/freeze.ts:5-7 | the recursion ends if and only if it ends with everything behind frozen objects cut off, cycles included |
| ScreenshotPaths.LastCut | goals/qa-walk-and-fix/paths.ts:71 | the greedy match: the largest cut at which a one-line route and a viewport-theme tail fit, if there is any |
| ScreenshotPaths.TailUnique | goals/qa-walk-and-fix/paths.ts:71 | a tail is read as its own viewport and theme: no two alternatives of the pattern fit one text |
| ScreenshotPaths.CutIsRight | goals/qa-walk-and-fix/paths.ts:20-26 | the greedy parse cuts a built name where it was put together if and only if the variant part holds no later viewport and theme |
| ScreenshotPaths.ScreenshotRoundTrip | goals/qa-walk-and-fix/paths.ts:63-80 | for every index, route, viewport, theme and variant: parsing the built name gives them back if and only if viewport and theme are known ones, the index is below 1000, the route is non-empty, neither route nor variant holds a slash or line end, and the variant part holds no viewport and theme |
| ScreenshotPaths.ParsedClean | goals/qa-walk-and-fix/paths.ts:70-79 | nothing that is ever parsed holds a slash or a line end, and viewport and theme are known ones |
| ScreenshotPaths.ParseThenBuild | goals/qa-walk-and-fix/paths.ts:63-80 | of every name that parses, with whatever directory and spelling of the extension, the part between them is the stem built again from what was parsed, except that a spelled-out `default` is left off |
| ScreenshotPaths.VariantTakenForViewport | goals/qa-walk-and-fix/paths.ts:71 | a variant that looks like a viewport and theme is taken for them |
| ScreenshotPaths.BaselineRoundTrip | goals/qa-walk-and-fix/paths.ts:52-60 | a baseline key parses back if and only if viewport and theme are known ones and its route is a non-empty line |
| ShotIndexRegistry.Registry.GetIndex | goals/qa-walk-and-fix/paths.ts:87-99 | after every sequence of calls the answer is one plus the number of keys first used earlier in the locale |
| ShotIndexRegistry.IndexStable | goals/qa-walk-and-fix/paths.ts:82-99 | a number once given stays, whatever calls follow |
| ShotIndexRegistry.IndexInjective | goals/qa-walk-and-fix/paths.ts:82-99 | two keys of a locale never share a number |
| ShotIndexRegistry.IndicesAreConsecutive | goals/qa-walk-and-fix/paths.ts:95-97 | the numbers given out in a locale are exactly 1..n |
| ShotIndexRegistry.AnswersTellKeysApart | goals/qa-walk-and-fix/paths.ts:82-99 | in every run, two calls for one locale got the same answer if and only if they asked for the same key |
| ShotIndexRegistry.NamesTellIndicesApart | goals/qa-walk-and-fix/paths.ts:8-26 | names built with different indices differ, also above 999 and whatever else they are built from |
| ShotIndexRegistry.RunHasNoCollision | goals/qa-walk-and-fix/paths.ts:82-99 | no two keys of a locale are ever saved under one file name in a run |
| ImportRepair.KindsAreDisjoint | goals/fe-be-integration-audit/tools/repair-imports.ts:47-57 | the three line patterns exclude each other |
| ImportRepair.KindIsRight | goals/fe-be-integration-audit/tools/repair-imports.ts:47-57 | the kind of a line answers all three tests, and trimming the line does not change it |
| ImportRepair.FindFault | goals/fe-be-integration-audit/tools/repair-imports.ts:41-63 | the loop with its flags stops with the indices that the scan defines, and with -1 in one of them exactly when there is no fault |
| ImportBlocks.LocateFinds | goals/fe-be-integration-audit/tools/repair-imports.ts:44-62 | the scan finds the last misplaced line of the first closed multi-line import that has one, and nothing if and only if there is none |
| ImportRepair.RepairFile | goals/fe-be-integration-audit/tools/repair-imports.ts:38-69 | the two splices and the join give the repaired lines; the text is unchanged exactly when no line is misplaced |
| ImportRepair.MovesOneLine | goals/fe-be-integration-audit/tools/repair-imports.ts:64-67 | the moved line ends up, trimmed, directly behind the closing line of the import it stood in, and all other lines keep text and order |
| ImportRepair.RepairKeepsText | goals/fe-be-integration-audit/tools/repair-imports.ts:64-67 | the lines are kept as a multiset up to white space at their ends |
| ImportBlocks.MisplacedMoved | goals/fe-be-integration-audit/tools/repair-imports.ts:64-67 | after the move the moved line is not misplaced, and every other line is if and only if it was |
| ImportBlocks.OneLess | goals/fe-be-integration-audit/tools/repair-imports.ts:64-67 | the number of misplaced lines drops by exactly one |
| ImportRepair.RepairMovesOne | goals/fe-be-integration-audit/tools/repair-imports.ts:38-69 | a run fires if and only if a line is misplaced, and then leaves one less |
| ImportRepair.RunsSettle | goals/fe-be-integration-audit/tools/repair-imports.ts:12 | the runs that change something are exactly the first n, where n is the number of misplaced lines: repeated runs reach a fixpoint with every line still there |
| EditApply.ApplyEdits | goals/fe-be-integration-audit/tools/fix-loading-state.ts:252-258 | sorting by descending offset and splicing one after the other gives the text with every insertion at its original offset, ties included |
| EditApply.UnweaveWeave | goals/fe-be-integration-audit/tools/fix-loading-state.ts:255-258 | taking the insertions out again gives the original |
| EditApply.InsertedInPlace | goals/fe-be-integration-audit/tools/fix-loading-state.ts:255-258 | every character of the original is still there, moved by what is inserted up to it, and right before it stands what was to be inserted there |
| EditApply.OrderIrrelevant | goals/fe-be-integration-audit/tools/fix-loading-state.ts:253 | at distinct offsets the order in which edits were found does not matter |
| EditApply.TiesReverse | goals/fe-be-integration-audit/tools/fix-loading-state.ts:253-258 | at every offset the edits found there, however many, end up in reverse order |
| EditApply.AllAtOneOffset | goals/fe-be-integration-audit/tools/fix-loading-state.ts:253-258 | if all edits were found at one offset, the text is cut there around their insertions in reverse order |
| Sorting.SortStable | goals/fe-be-integration-audit/tools/fix-loading-state.ts:253 | elements that tie keep their order |
| Sorting.SortSorts | goals/fe-be-integration-audit/tools/fix-loading-state.ts:253 | the result is in order |
| Sorting.SortPermutes | goals/fe-be-integration-audit/tools/fix-loading-state.ts:253 | the result is a permutation |
| PricingCache.Fetcher.FetchFromCache | packages/billing/src/pricing-fetcher.ts:259-262 | a call is answered at once exactly when the cache holds an entry that expires later and no refresh is forced |
| PricingCache.Fetcher.CompleteFetch | packages/billing/src/pricing-fetcher.ts:264-304 | the rest of a call returns the sorted list of the plans built or the first error; the cache becomes that list with the time of the call plus its time to live, and stays as it was after an error |
| PricingCache.Fetcher.ResetPricingCache | packages/billing/src/pricing-fetcher.ts:38-40 | the cache is empty afterwards |
| PricingCache.BuiltInOrder | packages/billing/src/pricing-fetcher.ts:292-295 | the plans are those of the products in order, and an error is that of the first product that has one |
| PricingCache.CacheIsLastFetch | packages/billing/src/pricing-fetcher.ts:255-304 | in every interleaving of overlapping calls and resets the cache holds an entry if and only if a fetch finished since the last reset and that entry is of the one that finished last |
| PricingCache.HitIsLastFetch | packages/billing/src/pricing-fetcher.ts:259-262 | a call is answered from the cache if and only if it forces no refresh and the fetch that finished last began less than its time to live ago; the answer is its list |
| PricingCache.LateFinishWins | packages/billing/src/pricing-fetcher.ts:302 | of two overlapping fetches the one that ends last stays, even if it began first |
| PricingCache.FetchedIsSorted | packages/billing/src/pricing-fetcher.ts:297-300 | the list is a permutation of the plans built, by market and then by order, and stable |
| PricingCache.FilterOfSorted | packages/billing/src/pricing-fetcher.ts:309-311 | cutting a market out of the sorted list is filtering and sorting the plans as they were built: the two sorts agree |
| PricingCache.MarketIsBlock | packages/billing/src/pricing-fetcher.ts:309-311 | on a sorted list the plans of a market are one contiguous block as it stands |
| PricingCache.BlocksMakeTheList | packages/billing/src/pricing-fetcher.ts:309-311 | the blocks of all markets one after the other are the list |
| PaymentGate.RuleIdIsRead | packages/compliance-policy/src/registry.ts:49-61 | every well-formed rule id is parsed into its namespace and version |
| PaymentGate.OnlyRuleIdsAreRead | packages/compliance-policy/src/registry.ts:9-50 | whatever is parsed is a well-formed rule id |
| PaymentGate.NamespaceIsOnlySplit | packages/compliance-policy/src/registry.ts:53-60 | the second pattern can match a parsed id in only one way, and always does |
| PaymentGate.ReadableIff | packages/compliance-policy/src/payment-gate.ts:84-90 | an item stops the grouping if and only if it names a rule, by a non-empty text that is no rule id |
| PaymentGate.GroupPaymentBlockReasons | packages/compliance-policy/src/payment-gate.ts:58-82 | the loop over the map returns one group per contractor in order of first appearance, with the name on its first item and exactly its reasons in input order; it throws if and only if some item is not readable, with the error of the first |
| PaymentGate.FirstAppearanceOrder | packages/compliance-policy/src/payment-gate.ts:61-71 | the j-th group is opened by an item before which exactly the first j contractors had appeared |
| PaymentGate.ReasonInPlace | packages/compliance-policy/src/payment-gate.ts:72-79 | every item has its reason in the group of its contractor, right behind those of the earlier ones |
| PaymentGate.GroupingConserves | packages/compliance-policy/src/payment-gate.ts:58-82 | all reasons of all groups together are those of the items, as a multiset, and as many as items |
| PaymentGate.ContractorsDistinct | packages/compliance-policy/src/payment-gate.ts:61-71 | no contractor has two groups |
| PaymentGate.EvaluatePaymentEligibility | packages/compliance-policy/src/payment-gate.ts:49-56 | `blocked` and `wouldBlock` exclude each other, one of them holds if and only if there are items, and which one is the enforcement flag |

## Left out

- Reading, writing and globbing of files, console output, exit codes and command-line flags of all scripts: the models
  work on texts and trees in memory.
- `scripts/check-contractor-rawsql-workertype.ts`: it has the same scanner functions, which are proved once.
- The regular expressions for tenant tokens, composable fragments, annotations and the leak allow-list: parameters of
  the models, which hold for any such tests.
- The heuristic finders of translation calls, hooks and hard-coded texts, and the resolution of their arguments: their
  result is the parameter `Refs` of the audit.
- `findings.placeholderMismatch` also carries the two texts, and findings are lists in base order: the model keeps the
  two differences, by key.
- Order of object fields: maps have none, so the enumerators and the placeholder audit are proved for every order.
- Prototype keys such as `constructor`, duplicate keys, surrogate pairs, and numbers other than as reals and integers.
- `packages/compliance-policy/src/expiry.ts`, role and permission tables, seeded rules: library arithmetic and finite
  tables.
- The result of `structuredClone` is a parameter of the snapshot: a graph of new objects, none frozen.
- Parsing a product's metadata and prices into a plan: the parameter `build` of the fetch, which may fail on any
  product. Plans keep the fields that sorting and filtering use. `findPlanByPriceId` is a plain search.
- That callers of the pricing cache share one list object with it: the model hands out values.
- Password checks, sessions and other columns of the user table: an attempt succeeds or fails as an input.
- Lower-casing of document types beyond ASCII, and dates other than as their ISO text.
- `buildScreenshotPath` and `comboKey`: joins of path segments.
- SignInLockout.OverlapBreaksBound: a lower bound on what overlapping attempts can pass. How many can pass at most in a
  span with w in flight is not stated; stale UPDATEs let more than 4 + w pass.
- EditApply.ApplyEdits: offsets lie within the text, as they come from its syntax tree.
- DeepFreeze.DeepFreezeAll: asks that no walk of unfrozen objects from the value returns to an object, which is
  exactly when the code ends (`DeepFreeze.FreezeIsVisit`, `FreezeOrder.EndsIffNoRepeat`); accessors and proxies are not
  modelled.
- DeepFreeze.BuildQuestionsSnapshot: asks the same of the clone.
