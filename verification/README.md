# Verified models of the assurance toolkit's core algorithms

This project models, in Dafny, the parts of the repository that are algorithms in their own right, and
proves for all inputs, runs and histories what the repository promises of them and samples with tests.
`dafny verify dfyconfig.toml` checks everything.

| modules | what they model |
|---|---|
| `DiffParsers`, `DiffCut`, `DiffRender`, `DiffReading`, `DiffTheorems`, `DiffExact`, `DiffAgreement`, `DiffText`, `DiffHistory`, `StagedScan` | the two line-driven parsers of zero-context diffs, the decoding of git's output and its cutting into lines, a renderer of such diffs from edit scripts, what each parser returns for every script, the exact conditions under which each is right and both agree, on lines and on git's text, and the staged-secret verdict built on one of them |
| `HashChain` | the HMAC-chained audit log as a mutable object, and what its verification detects |
| `Base64Url`, `CompactToken` | the unpadded base64url codec and the compact tokens built with it, both forgeries and both verifiers |
| `Normalize` | question normalisation under arbitrary sequences of surface perturbations |
| `ResetToken`, `Totp`, `Pkce`, `Webhook` | the single-use and ledger protocols: message formats, verifiers as objects, and whole runs |
| `FileGuard` | the snapshot and check of protected files over any history |
| `VacuityGate` | result mutation, one-at-a-time classification and the gate's exit code |
| `ActionPin`, `ControlAudit`, `ControlAuditor`, `ControlPolicy` | the nested control-audit loops, a declarative policy, and waivers |
| `Redelivery`, `RedeliveryHistory` | acknowledging and auto-acknowledging consumers on one queue as interleaved steps, and what became of each delivery |
| `RunLength`, `Text` | run-length coding; decimal, splitting and hexadecimal printing shared by the others |

Python's imperative code is modelled as methods and classes proved against functions; the theorems are
about those functions. Clock readings, drawn nonces, timeouts of the broker and the results of parsing
JSON and YAML are parameters. A MAC or hash is an arbitrary function. No theorem assumes that one is
injective, because a function onto fixed-length digests cannot be: each either names the two colliding
messages or asks that the particular messages at hand do not collide. Bytes are numbers below 256 and
the word arithmetic of one-time codes is on bit vectors.

## What the proofs found

Where the code and its own description differ, the model follows the code.

- The log is described as detecting the deletion of any entry
  (`harnesses/lib/tamper_evident_log_test_harness.py:13-15`). Cutting entries off the end is never
  detected (`HashChain.DrawnVerifiesIffPrefix`), and a first datum that spells another entry's message
  lets a looping walk pass (`HashChain.LoopPasses`); `HashChain.OnlyPrefixesVerify` shows that,
  short of a MAC collision, this is the only exception, and `HashChain.HeadOccurs` that it occurs.
- Both parsers miss added texts that open with `++`, so the staged gate passes a secret behind two plus
  signs (`DiffTheorems.AuditParsesDiff`, `DiffTheorems.ScanParsesDiff`, `StagedScan.VerdictKeepsPromiseIff`).
- git's output is decoded in text mode, so a carriage return inside a line cuts it for both parsers and one
  at its end is lost; `splitlines` cuts at further characters. What follows a cut is not read, or is read
  as a line of its own (`DiffText.ParseAddedOfDiff`, `DiffText.AddedBreakCuts`, `StagedScan.ReadCut`), and a cut
  removed line moves the scanner's numbers or makes up an added line (`DiffText.RemovedBreakSlips`,
  `DiffText.RemovedBreakForges`).
- git prints a tab behind a name with a space, and both parsers take it for a part of the name; of a name
  that git quotes neither knows anything (`DiffTheorems.SpacedNameKeepsTab`, `DiffTheorems.QuotedNameIsLost`).
- The scanner counts a missing-newline marker between removed and added lines as a line of the new file
  (`DiffTheorems.ScanParsesDiff`).
- A vacuity target that resolves to nothing is reported as having teeth
  (`VacuityGate.UnresolvableReadsTeeth`); targets joined by a comma are neutered in one run, where a strong
  one does mask a vacuous one (`VacuityGate.WorkerRun`); and a self-test that returns a multiple of 256 counts
  as green (`VacuityGate.GreenIff`).
- A reset token for an email that contains `|` never verifies (`ResetToken.IssuedAcceptedIff`), and the
  predictable design stops accepting its own tokens after the thousandth (`ResetToken.PredictableVerifiesIff`).
- The settle loop of the redelivery report waits only while the count is zero, so its report separates
  the two consumers only for a queue of one message (`Redelivery.ReportSeparatesIff`).
- An exception with an empty reason, appended after a good one, revokes it
  (`ControlPolicy.EmptyWaiverRevokesIff`).

## Model

| member | source | states |
|---|---|---|
| `DiffParsers.HunkStartIsPattern` | tools/audit_drift.py:116 | The hand-written matcher returns a number exactly for the lines that decompose as the hunk-header regular expression says, and the number is the value of its captured group |
| `DiffParsers.ParseAdded` | tools/audit_drift.py:103-123 | The line loop computes, for everything git may write, the fold of the one-line state machine over the decoded text split at line feeds |
| `DiffParsers.AddedLines` | tools/scan_staged.py:88-105 | The generator loop computes the fold of the scanner's one-line state machine over the decoded text split at every line boundary |
| `DiffParsers.SplitLines` | tools/scan_staged.py:93 | No piece that `splitlines` returns contains a line boundary |
| `DiffParsers.SplitLinesIs` | tools/scan_staged.py:93 | Any text, taken as lines that end at the ten boundaries (a return and line feed being one) and a rest, splits into exactly these lines, an empty rest left out |
| `DiffParsers.LinesOf` | tools/scan_staged.py:93 | Every text can be taken so |
| `DiffParsers.PlusNumberIff` | tools/scan_staged.py:99-100 | The number searched for is that of the digits behind the first plus sign that has any, and there is none exactly if no plus sign has |
| `DiffParsers.MinusLinesAreIgnored` | tools/scan_staged.py:101-105 | In any line sequence and from any state, deleting all lines that open with `-` changes neither parser's final state, so inserting or rewriting such lines changes nothing either |
| `DiffParsers.ScannedTexts` | tools/scan_staged.py:101-103 | From any state and over any lines the scanner yields exactly the texts of the lines that open with `+` and not with `+++`, in order |
| `DiffParsers.RecordsAtMostPlusLines` | tools/audit_drift.py:119-121 | The auditor records texts of such lines only, no more often than there are such lines |
| `DiffParsers.ScanTextsAreBreakFree` | tools/scan_staged.py:101-103 | No text the scanner yields contains a line boundary |
| `DiffHistory.ScanRecordIff` | tools/scan_staged.py:88-105 | On any lines whatever the scanner yields exactly the added texts, each under the file last named, if any, and at the number last opened plus the lines counted since, stated on the lines and not on the loop's state |
| `DiffHistory.AuditRecordIff` | tools/audit_drift.py:103-123 | On any lines the auditor records exactly the added texts that stand under a named file, which git's header of the next file ends, at the number last opened plus the lines added since |
| `DiffCut.SplitRaw` | tools/audit_drift.py:48-61 | The text the auditor splits, decoded in text mode, is the printed lines cut at every carriage return, one at a line's end aside, and one empty last line |
| `DiffCut.SplitLinesRaw` | tools/scan_staged.py:72-93 | The lines the scanner sees, decoded in text mode, are the printed lines cut at every boundary of `splitlines`, a return at a line's end aside |
| `DiffRender.HeaderStartsHunk` | tools/audit_drift.py:116-118 | For every printed hunk header, counts of one left out and zero-count sides included, and whatever follows the ranges, the auditor reads the start of the new side |
| `DiffRender.HeaderNumber` | tools/scan_staged.py:98-100 | The scanner's first `+` digits in the same header are the same number |
| `DiffReading.PlusLineSteps` | tools/audit_drift.py:109-122 | What one added line does to either parser, for every text: recorded and counted, taken for a file name, counted by the scanner only, or nothing |
| `DiffReading.AddedRunAudit` | tools/audit_drift.py:109-122 | A block of any added texts, read by the auditor from any state: one record per text that does not open with `++`, under the path and number then current |
| `DiffReading.AddedRunScan` | tools/scan_staged.py:94-105 | The same block read by the scanner |
| `DiffReading.HunkRead` | tools/scan_staged.py:94-105 | From any state, and whatever is removed, a hunk is read thus: the lines between its ranges and its added lines lead to a path and a number and may yield records themselves, and from there its added lines are read |
| `DiffReading.FileHead` | tools/audit_drift.py:109-114 | Between two files' hunks the header lines record nothing and leave current what stands behind `b/`, the tab after a name with a space included, or no path for a name git quotes |
| `DiffReading.FileRead` | tools/audit_drift.py:108-123 | One file's whole section, from any state, adds exactly the stated records to what either parser had |
| `DiffReading.DiffRead` | tools/scan_staged.py:93-105 | The same for whole diffs, uncut or cut at any kind of boundary, whatever is removed, for all added texts without a boundary |
| `DiffReading.QuietDiff` | tools/scan_staged.py:98-105 | Where whatever is cut off removed lines and headings is inert, added lines are read at their positions in the new file, by the scanner moved on by the marker and by such pieces |
| `DiffTheorems.WholeDiffParsed` | tools/audit_drift.py:103-123 | For every list of files and edit scripts, whatever they add, both parsers return exactly the stated records in order |
| `DiffTheorems.DiffRight` | tools/audit_drift.py:109-122 | In that case what is read is right if and only if no added text opens with `++`, lines are added only under names that git neither quotes nor shows with a tab and, for the scanner, nothing in between counts |
| `DiffTheorems.AuditParsesDiff` | tools/audit_drift.py:103-123 | The auditor returns one record per added line, in order, under its file's name and at its true position across all hunks and files, if and only if no added text opens with `++` and every file that adds lines has a non-empty name that git does not quote and that holds no space |
| `DiffTheorems.ScanParsesDiff` | tools/scan_staged.py:88-105 | The scanner does so if and only if no added text opens with `++`, no file that adds lines has a name that git quotes or that holds a space, and no hunk has a missing-newline marker between its removed and its added lines |
| `DiffTheorems.SpacedNameKeepsTab` | tools/audit_drift.py:111-127 | For a name with a space every record carries the name and a tab, so it has no suffix such as `.py` any more |
| `DiffTheorems.QuotedNameIsLost` | tools/scan_staged.py:94-103 | Of a file whose name git quotes the auditor records nothing and the scanner yields every added line without a path |
| `DiffTheorems.RecordsIndexNewFile` | tools/audit_drift.py:118-122 | Record by record, the line number indexes that very text in the new file, and the numbers grow |
| `DiffTheorems.UnrecordedIsKept` | tools/audit_drift.py:118-122 | The lines of the new file at no recorded number are, in order, exactly the lines the edit script keeps: the records name the added lines and nothing else |
| `DiffAgreement.BlocksAgree` | tools/scan_staged.py:104-105 | Both parsers number a block alike exactly when nothing counted by the scanner only comes before a text that is recorded |
| `DiffAgreement.DiffAttributable` | tools/audit_drift.py:111-121 | All that is read has a path exactly when one is current at every recorded text, names forged by added texts included |
| `DiffAgreement.ParsersAgree` | tools/scan_staged.py:88-105 | Whatever a diff adds, the two parsers return the same sequence if and only if, at every text that does not open with `++`, the scanner is in step and a non-empty path is current |
| `DiffAgreement.PlainInStep` | tools/scan_staged.py:104-105 | Where no added text opens with `++` that is: no marker before added lines, and every file that adds lines has a name that git does not quote |
| `DiffAgreement.LinesReadAlike` | tools/scan_staged.py:93-105 | Over any lines and from any states the two parsers return the same if and only if they do so line by line: no record can make up for another |
| `DiffExact.ScanReadsExactly` | tools/scan_staged.py:93-105 | On any diff, whatever is removed and added, the scanner is right if and only if no added text opens with `++` or holds a boundary, and what lies between a hunk's ranges and its added lines yields nothing and comes to the true name and number |
| `DiffExact.AuditReadsExactly` | tools/audit_drift.py:108-122 | On any diff in which nothing cut off removed lines or headings looks like an added line the auditor is right if and only if no added text opens with `++` or holds a boundary, and wherever lines are added it has come to the true, non-empty name and the true number |
| `DiffText.ParseAddedOfDiff` | tools/audit_drift.py:48-123 | The exact condition for the auditor, through git's output and its decoding, on diffs in which nothing cut off looks like an added line |
| `DiffText.QuietParseAdded` | tools/audit_drift.py:48-123 | Where whatever is cut off is inert: right if and only if, besides the condition on lines, no added text holds a carriage return |
| `DiffText.StrayStandsIn` | tools/audit_drift.py:108-122 | Why that hypothesis: a record made up from a removed line can stand in for an added line that is lost, and the result is right by accident |
| `DiffText.AddedLinesOfDiff` | tools/scan_staged.py:72-105 | The exact condition for the scanner, through git's output and its decoding, on any diff |
| `DiffText.QuietAddedLines` | tools/scan_staged.py:72-105 | Where whatever is cut off is inert: right if and only if no added text opens with `++` or holds a boundary of `splitlines`, no file that adds lines has a name that git quotes or that holds a space, and in no hunk that adds lines anything in between counts |
| `DiffText.TextParsed` | tools/scan_staged.py:72-105 | What either returns on the text when its boundaries are in no added text, whatever else is added or removed |
| `DiffText.TextsAgree` | tools/scan_staged.py:72-105 | On everything git may write the two parsers agree if and only if at each line of the decoded text the scanner reads nothing, or reads the line whole while both stand at the same non-empty path and number |
| `DiffText.QuietTextsAgree` | tools/scan_staged.py:72-105 | For printed diffs in which whatever is cut off is inert and no added text holds a boundary: if and only if the scanner is in step and a path current at every text that does not open with `++` |
| `DiffText.AddedBreakCuts` | tools/audit_drift.py:108-122 | For every added text: it is read as its piece before the first boundary, shorter than the text if there is one, and what is cut off as lines of their own; if those are inert nothing else of it comes back |
| `DiffText.RemovedBreakForges` | tools/audit_drift.py:108-122 | A removed line whose rest behind a boundary opens with `+` is read there as an added line: both parsers return a text nobody added or, if it opens with `+++`, may take it for a file name |
| `DiffText.RemovedBreakSlips` | tools/scan_staged.py:93-105 | In any whole diff one removed line with a boundary in it and a rest that does not open with `-`, in a hunk that adds lines and in which what is cut off is inert, makes the scanner's result wrong, whatever the other hunks and files hold |
| `DiffText.WholeLinesAreQuiet` | tools/scan_staged.py:93-105 | A return at the end of a removed line, as in files with CRLF line ends, does no harm |
| `StagedScan.HitIff` | tools/scan_staged.py:55-59 | A line's hits are exactly the names of the patterns it matches, and none if it carries the allowlist marker at any position |
| `StagedScan.BlockPaths` | tools/scan_staged.py:109-112 | The first loop lists the personal paths in order |
| `StagedScan.BlockHits` | tools/scan_staged.py:114-115 | The inner loop lists one block per hit at the record's path, `?` where there is none |
| `StagedScan.BlockLines` | tools/scan_staged.py:113-115 | The second loop lists the hits of all records in order |
| `StagedScan.LineBlockIff` | tools/scan_staged.py:113-115 | The blocks are exactly, for each read line and each pattern name it hits, that name at that line and path, `?` for none |
| `StagedScan.PathBlockIff` | tools/scan_staged.py:109-112 | The path blocks are exactly the personal changed paths, at line 0 |
| `StagedScan.Scan` | tools/scan_staged.py:108-127 | For everything git may write: exit code 0 if and only if no changed path is personal and no line that opens with `+` and not with `+++` has a hit behind its plus sign; otherwise 1; and the printed blocks in order |
| `StagedScan.TextsOfDiff` | tools/scan_staged.py:93-103 | The texts read of any printed diff, whatever it adds or removes: per added line its first piece unless that opens with `++`, and every later piece, of removed lines and headings too, that looks like an added line |
| `StagedScan.VerdictIsAboutAddedTexts` | tools/scan_staged.py:113-115 | The verdict on a printed diff, whatever it adds and removes, is clean if and only if nothing that is read of its added texts has a hit, nor any piece of a removed line or a heading that looks like an added line |
| `StagedScan.QuietStrays` | tools/scan_staged.py:101-103 | There is no such piece where whatever is cut off is inert |
| `StagedScan.VerdictOnUncut` | tools/scan_staged.py:101-115 | Where no added text holds a boundary: clean if and only if no added text that does not open with `++` has a hit, nor any such piece |
| `StagedScan.VerdictKeepsPromiseIff` | tools/scan_staged.py:101-115 | There the verdict is the one on the added texts themselves if and only if some added text has a hit exactly when one that does not open with `++` has, or such a piece |
| `StagedScan.ReadUncut` | tools/scan_staged.py:101-103 | An added text without a boundary is read whole, or not at all if it opens with `++` |
| `StagedScan.ReadCut` | tools/scan_staged.py:93-103 | Of every added text the piece before the first boundary is read, unless it opens with `++`, and of the pieces behind it those that look like added lines |
| `StagedScan.HiddenTextsPass` | tools/scan_staged.py:93-115 | A diff that adds only texts whose first piece opens with `++` or has no hit, and behind which nothing looks like an added line, passes whatever else they hold, if no piece of a removed line has a hit |
| `HashChain.HashChainedLog.constructor` | harnesses/lib/tamper_evident_log_test_harness.py:66-68 | A new log is the chain of no data under the secret's MAC |
| `HashChain.HashChainedLog.Append` | harnesses/lib/tamper_evident_log_test_harness.py:70-72 | Appending extends the entries by one and leads from the chain of the data so far to the chain of those data and the new one |
| `HashChain.HashChainedLog.Verify` | harnesses/lib/tamper_evident_log_test_harness.py:74-80 | The loop returns true exactly for the sequences in which every tag authenticates the tag before it and its own data |
| `HashChain.HashChainedLog.Tamper` | harnesses/lib/tamper_evident_log_test_harness.py:82-83 | Replaces one datum and no tag; negative indexes count from the end and one outside the list raises and changes nothing |
| `HashChain.VerifyIsChained` | harnesses/lib/tamper_evident_log_test_harness.py:74-80 | The walk with a running tag is the pointwise statement |
| `HashChain.TamperDetected` | harnesses/lib/tamper_evident_log_test_harness.py:82-83 | Rewriting an entry of an intact log is undetected if and only if the datum is the same or the entry's old and new messages are two different texts with one tag |
| `HashChain.SameEndSameLog` | harnesses/lib/tamper_evident_log_test_harness.py:70-80 | Two intact logs of one length under one MAC that end in the same tag are identical, or a position is exhibited where two different messages have one tag |
| `HashChain.StepIsSuccessor` | harnesses/lib/tamper_evident_log_test_harness.py:76-79 | In a walk over a log's own entries one step is accepted exactly from an entry to its successor |
| `HashChain.DrawnVerifiesIffPrefix` | harnesses/lib/tamper_evident_log_test_harness.py:74-80 | Entries of a log drawn in any order, with repeats and gaps, verify if and only if they are a prefix: inner deletion, reordering and duplication are caught, truncation is not |
| `HashChain.LoopPasses` | harnesses/lib/tamper_evident_log_test_harness.py:74-80 | When the first datum spells another entry's authenticated message, a looping walk that is no prefix verifies |
| `HashChain.OnlyPrefixesVerify` | harnesses/lib/tamper_evident_log_test_harness.py:74-80 | The prefix property holds for a log if and only if its first datum spells no later entry's message |
| `HashChain.HeadOccurs` | harnesses/lib/tamper_evident_log_test_harness.py:70-80 | That exception occurs: a MAC and a log of two entries without any collision on which a looping walk verifies |
| `Base64Url.AlphabetInOrder` | harnesses/lib/jwt_alg_confusion_test_harness.py:56 | Every six-bit value is written as the character at its place in the urlsafe alphabet |
| `Base64Url.GroupKeepsBits` | harnesses/lib/jwt_alg_confusion_test_harness.py:56 | Four characters spell the same 24-bit number as the three bytes, and a short last group is a zero-filled group cut and padded (section 4 of RFC 4648) |
| `Base64Url.PaddingRestored` | harnesses/lib/jwt_alg_confusion_test_harness.py:56-64 | The stripped text has length ceil(4n/3), never one more than a multiple of four, holds neither dot nor equals sign, and `-len % 4` equals signs restore exactly what was stripped |
| `Base64Url.DecodeEncode` | harnesses/lib/jwt_alg_confusion_test_harness.py:55-64 | Decoding the padded text gives back every byte string |
| `Base64Url.RoundTrip` | harnesses/lib/jwt_alg_confusion_test_harness.py:55-64 | `_b64u_decode(_b64u(raw)) == raw` for every byte string |
| `Base64Url.Injective` | harnesses/lib/jwt_alg_confusion_test_harness.py:55-56 | Different byte strings have different segments |
| `Base64Url.DecodesIff` | harnesses/lib/jwt_alg_confusion_test_harness.py:63-64 | A text over the alphabet decodes exactly when its length is not one more than a multiple of four, and re-encodes to itself exactly when its spare bits are zero |
| `CompactToken.TokenParts` | harnesses/lib/jwt_alg_confusion_test_harness.py:100-133 | Three dot-free segments joined by dots are recovered by splitting, and the last two parts by cutting at the last dot |
| `CompactToken.TokenReadsBack` | harnesses/lib/jwt_alg_confusion_test_harness.py:99-133 | For every header, claims and signature, a hand-built token gives back the header, the claims, the signing input and the signature segment |
| `CompactToken.ForgeriesAreTokens` | harnesses/lib/jwt_alg_confusion_test_harness.py:82-96 | Both forging functions build such a token: with an empty signature, and with the key's MAC of the signing input |
| `CompactToken.VerdictByAlgorithm` | harnesses/lib/jwt_alg_confusion_test_harness.py:104-137 | For every header, claims and signature: the pinned verifier leaves RS256 to the library and refuses the rest; the header-trusting one believes `none`, checks HS256 under the public key, leaves RS256 to the library and refuses the rest |
| `CompactToken.ShortTokenRaises` | harnesses/lib/jwt_alg_confusion_test_harness.py:128 | Both refuse what has fewer than three segments |
| `CompactToken.Hs256AcceptedIff` | harnesses/lib/jwt_alg_confusion_test_harness.py:131-136 | The header-trusting verifier returns the claims of an HS256 token if and only if its signature is the MAC of the signing input under the public key |
| `CompactToken.Forgeries` | harnesses/lib/jwt_alg_confusion_test_harness.py:104-137 | The header-trusting verifier returns precisely the forged claims for both forgeries, the pinned one rejects both, and a forgery under another key passes exactly when the two keys' MACs of the input agree |
| `Normalize.Check` | harnesses/ai/metamorphic_stability_test_harness.py:70-82 | The composition loop fails exactly when the responder's answer to the fully perturbed question differs from its answer to the base |
| `Normalize.WordsAreStretches` | harnesses/ai/metamorphic_stability_test_harness.py:55 | The words of a blanked text are exactly its maximal stretches without a space |
| `Normalize.TokensAreRuns` | harnesses/ai/metamorphic_stability_test_harness.py:53-55 | The token set is exactly the set of lower-cased maximal alphanumeric runs of the question |
| `Normalize.StableAnswerIff` | harnesses/ai/metamorphic_stability_test_harness.py:58-61 | The stable answer is Paris exactly where both words are among those runs, and unknown otherwise |
| `Normalize.CasesAre` | harnesses/ai/metamorphic_stability_test_harness.py:41-43 | The case operations change the case of letters only: all up, all down, or up exactly where a run of letters begins |
| `Normalize.StrippedIs` | harnesses/ai/metamorphic_stability_test_harness.py:46 | Stripping takes question marks off the end until none is left there, and nothing else |
| `Normalize.TokensInvariant` | harnesses/ai/metamorphic_stability_test_harness.py:40-47 | Each of the six perturbations keeps the token set |
| `Normalize.StableUnderAllOps` | harnesses/ai/metamorphic_stability_test_harness.py:40-67 | For every ASCII question and every list of perturbations of any length the token set and the stable answer are unchanged |
| `Normalize.VolatileIff` | harnesses/ai/metamorphic_stability_test_harness.py:64-80 | The volatile answer to a perturbed question is Paris exactly if its length plus the spaces appended and question marks stripped is even; so it survives if and only if these are even in number, and one trailing space always flips it |
| `ResetToken.PyIntOfDecimal` | harnesses/lib/reset_token_design_test_harness.py:99 | `int` reads back every printed integer, negative ones included |
| `ResetToken.PyIntIff` | harnesses/lib/reset_token_design_test_harness.py:99 | `int` reads exactly the decimal numerals, single underscores between digits, a sign before and blanks around allowed, at their value |
| `ResetToken.PayloadFields` | harnesses/lib/reset_token_design_test_harness.py:85-96 | The payload splits into its four fields when the email is free of pipes and into more than four otherwise |
| `ResetToken.IssuedFields` | harnesses/lib/reset_token_design_test_harness.py:84-98 | An issued token carries its own valid tag and gives back exactly its four fields, or none for an email that contains a pipe |
| `ResetToken.SignedFieldsIff` | harnesses/lib/reset_token_design_test_harness.py:88-98 | The tag fits and four fields come back exactly for a text of four pipe-free fields and a tag that spells, in hexadecimal, the MAC of those four |
| `ResetToken.CheckIff` | harnesses/lib/reset_token_design_test_harness.py:88-104 | Any text is accepted if and only if it carries, under the server's tag, the email asked for, the purpose `pwreset`, an expiry not past and an unused nonce; it raises if and only if all but the expiry's being a number hold of email, purpose and tag |
| `ResetToken.IssuedAcceptedIff` | harnesses/lib/reset_token_design_test_harness.py:84-104 | An issued token is accepted exactly for its own pipe-free email, up to its expiry and while its nonce is unused, rejected otherwise, and never raises |
| `ResetToken.ForgedAcceptedIff` | harnesses/lib/reset_token_design_test_harness.py:106-109 | A token signed by any other function is accepted exactly where, besides, that function agrees with the server's MAC on the very payload |
| `ResetToken.SignedTokenDesign.constructor` | harnesses/lib/reset_token_design_test_harness.py:80-82 | A new verifier has used no nonce |
| `ResetToken.SignedTokenDesign.Verify` | harnesses/lib/reset_token_design_test_harness.py:88-104 | The method returns the stated verdict and marks the nonce used exactly when it accepts; otherwise nothing changes |
| `ResetToken.UsedBeforeIs` | harnesses/lib/reset_token_design_test_harness.py:101-103 | At any point of a run the used nonces are exactly those of the tokens accepted before |
| `ResetToken.NonceAcceptedOnce` | harnesses/lib/reset_token_design_test_harness.py:101-103 | In any run, of arbitrary tokens, no two accepted tokens have the same nonce |
| `ResetToken.IssuedInRun` | harnesses/lib/reset_token_design_test_harness.py:84-104 | In any run an issued token is accepted if and only if it is for its own pipe-free email, unexpired, and no accepted token had its nonce before |
| `ResetToken.AcceptedWasIssued` | harnesses/lib/reset_token_design_test_harness.py:88-104 | In a run where every validly tagged payload was issued, an acceptance is for an issued email with its nonce and within its lifetime |
| `ResetToken.CountIsUsed` | harnesses/lib/reset_token_design_test_harness.py:101-104 | The number of acceptances in a run is the number of used nonces |
| `ResetToken.NoMoreThanIssued` | harnesses/lib/reset_token_design_test_harness.py:84-104 | In such a run there are no more acceptances than issued tokens |
| `ResetToken.PredictableVerifiesIff` | harnesses/lib/reset_token_design_test_harness.py:112-129 | The forged token of the predictable design always verifies, and a token it issued verifies exactly while its counter is at most 1000 |
| `FileGuard.LoadsWhatItDumps` | tools/file_guard.py:76-116 | Reading back a written manifest gives exactly the files map |
| `FileGuard.LoadIff` | tools/file_guard.py:76-93 | A manifest loads exactly if it is an object whose `files` is an object of strings only, and as that map |
| `FileGuard.Guard.constructor` | tools/file_guard.py:68-73 | The protected set, the tree and an absent manifest |
| `FileGuard.Guard.Update` | tools/file_guard.py:68-120 | Exit 0 if and only if the manifest can be written and every file declared by name, present or not, and every present match of a glob is readable; then the manifest holds the digest of each of these and nothing else. Otherwise exit 1, manifest untouched, and exactly the unreadable ones are named |
| `FileGuard.Guard.Check` | tools/file_guard.py:123-154 | Exit 2 if and only if the manifest is no object with an object of strings under `files`; exit 0 if and only if it is and every path in it or protected is in it, readable and has its digest; the drift names exactly the other paths, as removed, unreadable, unbaselined or modified |
| `FileGuard.EditNoticedIff` | tools/file_guard.py:96-154 | A snapshot of readable files makes `check` pass; after one more edit it passes exactly if the edit leaves a recorded path its digest or, elsewhere, writes nothing that a glob matches |
| `FileGuard.StepKeepsRecorded` | tools/file_guard.py:96-120 | Every event keeps the manifest equal to the digests of what the last successful snapshot saw |
| `FileGuard.RunKeepsRecorded` | tools/file_guard.py:96-120 | So does every history |
| `FileGuard.CheckIsExact` | tools/file_guard.py:123-154 | After any history the exit code is 0 if and only if a snapshot has succeeded, every protected path is in the last one and every path in it holds the content it had then, and 2 if and only if none has succeeded |
| `VacuityGate.MutantIsFaithfulIff` | tools/vacuity_gate.py:47-71 | The mutant is a different value of the same type exactly for the builtin types, a float only where adding 1.0 changes it; and it equals the value only for such a float and the stand-in object |
| `VacuityGate.MutantShape` | tools/vacuity_gate.py:47-71 | Truth flips, a number moves by one, text and bytes grow at the end, and a container becomes empty exactly if it was not |
| `VacuityGate.GreenIff` | tools/vacuity_gate.py:118-141 | A run counts as green exactly if it returns nothing or a multiple of 256; an uncaught error is 1 and a hang 124 |
| `VacuityGate.NeuterAllIs` | tools/vacuity_gate.py:89-123 | Neutering distinct targets fails exactly where one does not resolve or has more than two parts, and otherwise every listed oracle, and no other symbol, returns the mutant of what it returned |
| `VacuityGate.WorkerRun` | tools/vacuity_gate.py:118-142 | For plain targets the worker exits 1 where one does not resolve and otherwise as the self-test does with exactly those results mutated; targets written as one with commas between are neutered together |
| `VacuityGate.StatusIff` | tools/vacuity_gate.py:144-160 | ERROR is a red run of the worker without targets, VACUOUS a green one with some target whose run alone is green, TEETH a green one with none |
| `VacuityGate.ControlRun` | tools/vacuity_gate.py:152-154 | The worker without targets exits 0 exactly when the untouched self-test is green |
| `VacuityGate.NeuteredRun` | tools/vacuity_gate.py:89-142 | One neutered target makes the worker run the self-test with that single result mutated and every other symbol as it was, or turn red when the name does not resolve |
| `VacuityGate.Classify` | tools/vacuity_gate.py:144-160 | The loop answers ERROR exactly when the worker exits non-zero without targets, VACUOUS exactly when it exits 0 without and with some single target, TEETH exactly when it exits 0 without and with none |
| `VacuityGate.RunGate` | tools/vacuity_gate.py:173-197 | The four lists hold the harnesses of each kind in order, every harness is in exactly one, and the gate exits 0 exactly when for every harness that lists targets the worker is green without and red with each single one |
| `VacuityGate.NamedPartition` | tools/vacuity_gate.py:174-197 | The four lists partition the harnesses, and the two blocking ones are empty exactly when every mapped harness has teeth |
| `VacuityGate.NamedIff` | tools/vacuity_gate.py:174-187 | A name is in a list exactly if some harness of that name lists targets and has that verdict, and in the advisory one exactly if some such harness lists none |
| `VacuityGate.NoMasking` | tools/vacuity_gate.py:155-160 | A target list is VACUOUS exactly when one of its two parts is, and the verdict does not depend on the order of the parts |
| `VacuityGate.UnresolvableReadsTeeth` | tools/vacuity_gate.py:89-160 | A target name that resolves to nothing, or has more than two parts, reads TEETH on every green harness |
| `VacuityGate.EmptyTargetReadsVacuous` | tools/vacuity_gate.py:136-160 | An empty target name reads VACUOUS on every green harness |
| `VacuityGate.IgnoredTargetReadsVacuous` | tools/vacuity_gate.py:144-160 | A green self-test whose verdict does not depend on some target is VACUOUS |
| `VacuityGate.EqualityTeethIff` | tools/vacuity_gate.py:47-160 | For a green self-test made of equality checks the verdict is TEETH if and only if every target is checked on some result that mutation changes, and VACUOUS otherwise |
| `Redelivery.StepConserves` | harnesses/integration/rabbitmq_redelivery_test_harness.py:35-62 | Every step keeps, message by message, published = ready + returning + unacked + acked + taken, done or lost under auto-ack |
| `Redelivery.StepKeepsTags` | harnesses/integration/rabbitmq_redelivery_test_harness.py:42-50 | Every step keeps delivery tags unique among outstanding and acknowledged deliveries |
| `Redelivery.StepKeepsHeld` | harnesses/integration/rabbitmq_redelivery_test_harness.py:42-50 | Every step keeps what a consumer holds, outstanding or taken, on its own channel |
| `Redelivery.StepKeepsProcessed` | harnesses/integration/rabbitmq_redelivery_test_harness.py:45-50 | Every step keeps that an acknowledged delivery was processed without error |
| `Redelivery.EveryRunIsSafe` | harnesses/integration/rabbitmq_redelivery_test_harness.py:35-62 | After any interleaving of publishes, several consumers, failures, abandonments, channel closes and late requeues, every message is conserved, every acknowledged delivery was processed without error, and none is acknowledged twice |
| `Redelivery.DrainEmpties` | harnesses/integration/rabbitmq_redelivery_test_harness.py:45-50 | From every reachable state, closing the channels and settling returns every outstanding message to the queue, loses what auto-ack consumers had taken and changes nothing else |
| `Redelivery.OnlyAutoAckLoses` | harnesses/integration/rabbitmq_redelivery_test_harness.py:54-62 | After that drain, queued, acknowledged and auto-acked-and-done copies fall short of the published ones by exactly the messages whose processing failed or was cut short under auto-ack |
| `Redelivery.FailureInBetween` | harnesses/integration/rabbitmq_redelivery_test_harness.py:41-62 | A failure after delivery and before the end of processing costs the acknowledging consumer nothing once its channel is closed, and loses the message under auto-ack |
| `RedeliveryHistory.StandsIff` | harnesses/integration/rabbitmq_redelivery_test_harness.py:41-62 | At any point of any run a consumer stands at a delivery exactly if the events hold the step that handed it out, or processed it, and none since that ends that |
| `RedeliveryHistory.WhatBecame` | harnesses/integration/rabbitmq_redelivery_test_harness.py:41-62 | After any interleaving a delivery is acknowledged if and only if its consumer fetched it, processed it without error and replied, uninterrupted; outstanding if and only if it was handed out and neither replied to nor its channel closed; done under auto-ack if and only if processing ended well, and lost if and only if it failed, was cut short or its channel closed |
| `RedeliveryHistory.DeliveredInOrder` | harnesses/integration/rabbitmq_redelivery_test_harness.py:42-58 | As long as nothing returned to the queue, delivery `t` carries the message published as number `t`, and what is ready is what was published after the last delivery |
| `Redelivery.Channel.constructor` | harnesses/integration/rabbitmq_redelivery_test_harness.py:38-39 | The consumer holds its channel |
| `Redelivery.Channel.ProcessOne` | harnesses/integration/rabbitmq_redelivery_test_harness.py:41-51 | `process_one` is get, process, acknowledge or return. If the processor succeeds the first message's delivery is acknowledged and nothing returns to the queue; if it fails the message is on its way back and nothing is acknowledged; either way it leaves the queue, nothing stays outstanding and all else is unchanged. On an empty queue nothing happens |
| `Redelivery.Channel.ProcessOneAuto` | harnesses/integration/rabbitmq_redelivery_test_harness.py:57-62 | The auto-acking variant is two steps, the message leaving the broker before it is processed: done if the processor succeeds, lost if it fails, never returned, and all else unchanged |
| `Redelivery.Channel.RemainingAfterFailure` | harnesses/integration/rabbitmq_redelivery_test_harness.py:69-84 | The polling loop reports the stated count for every broker delay, both consumers and every queue length |
| `Redelivery.ReportSeparatesIff` | harnesses/integration/rabbitmq_redelivery_test_harness.py:79-84 | The report tells the two consumers apart for every broker that settles before the deadline if and only if the queue held exactly one message |
| `ActionPin.MatchRefIff` | tools/control_audit.py:20 | The matcher yields a reference if and only if the text decomposes as the action regular expression says with that reference, a trailing line feed dropped |
| `ControlPolicy.UnpinnedIff` | tools/control_audit.py:140-141 | A use is reported exactly when it references something that is not a full commit hash |
| `ActionPin.FullShaIff` | tools/control_audit.py:19 | A full commit hash is forty characters of `0123456789abcdef` |
| `ControlPolicy.GetHas` | tools/control_audit.py:94-111 | A look-up finds exactly the value of the first entry with the key, and nothing exactly if no entry has it |
| `ControlPolicy.LoadIff` | tools/control_audit.py:23-28 | A file loads as a mapping exactly if it holds one, or nothing, and fails with the stated message exactly if it does not parse or holds something else |
| `ControlAuditor.Auditor.constructor` | tools/control_audit.py:48-53 | Nothing reported yet |
| `ControlAuditor.Auditor.Report` | tools/control_audit.py:55-61 | Each report lands in exactly one of the two lists, by its waiver |
| `ControlAuditor.Auditor.AuditStep` | tools/control_audit.py:134-146 | The loop body with its two early continues reports the step's findings and nothing else, or stops where `with` is no mapping |
| `ControlAuditor.Auditor.AuditSteps` | tools/control_audit.py:134-146 | The step loop reports the findings of all steps in order |
| `ControlAuditor.Auditor.AuditJob` | tools/control_audit.py:126-146 | The job body reports the job's findings, and only one where the job is no mapping |
| `ControlAuditor.Auditor.AuditJobs` | tools/control_audit.py:126-146 | The job loop reports the findings of all jobs in order |
| `ControlAuditor.Auditor.AuditConcurrency` | tools/control_audit.py:104-114 | The concurrency block's reports |
| `ControlAuditor.Auditor.AuditTop` | tools/control_audit.py:99-119 | The reports about the document itself, in order |
| `ControlAuditor.Auditor.AuditWorkflow` | tools/control_audit.py:87-146 | One workflow's reports and stable name; an unreadable one is reported once and skipped, one without jobs stops there |
| `ControlAuditor.Auditor.AuditWorkflows` | tools/control_audit.py:86-146 | The workflow loop reports all findings in order and collects all stable names |
| `ControlAuditor.Auditor.AuditRequired` | tools/control_audit.py:63-66 | The required-file loop |
| `ControlAuditor.Auditor.AuditInstructions` | tools/control_audit.py:68-71 | The instruction loop |
| `ControlAuditor.Auditor.AuditNested` | tools/control_audit.py:73-75 | The nested-instruction loop |
| `ControlAuditor.Auditor.AuditNames` | tools/control_audit.py:148-150 | The required-workflow loop over the collected names |
| `ControlAuditor.Auditor.Audit` | tools/control_audit.py:46-164 | The whole run reports exactly the specified findings in order and exits accordingly, or ends in an exception exactly where the specification says so, a passing run without a scanner mode included |
| `ControlPolicy.StepFound` | tools/control_audit.py:134-146 | A step's findings are exactly its violations of the policy |
| `ControlPolicy.JobFound` | tools/control_audit.py:126-146 | A job's findings are exactly its violations |
| `ControlPolicy.WorkflowFound` | tools/control_audit.py:87-146 | A workflow's findings are exactly its violations |
| `ControlPolicy.FilesFound` | tools/control_audit.py:63-75 | The file findings are exactly the violations of the three file rules |
| `ControlPolicy.SubstantiveIff` | tools/control_audit.py:70 | A stripped text has forty characters exactly if two characters that are no blanks stand that far apart |
| `ControlPolicy.MissingWorkflowsFound` | tools/control_audit.py:148-150 | The name findings are exactly the required names no workflow has |
| `ControlPolicy.NamesFound` | tools/control_audit.py:86-98 | The names gathered are exactly the text values under `name` of the workflows that load |
| `ControlPolicy.FindingsAreViolations` | tools/control_audit.py:63-150 | The nested loops' findings are, in either direction, the violations of a policy stated on the entries of the documents, without look-ups, loops or order |
| `ControlPolicy.FindingsLostIff` | tools/control_audit.py:134-146 | The loops are cut short by an exception if and only if such a workflow exists |
| `ControlPolicy.GroupIff` | tools/control_audit.py:108-110 | The group is reported exactly when it is no text in which `github.ref` occurs |
| `ControlPolicy.CancelIff` | tools/control_audit.py:111-114 | Cancellation is reported exactly when it is neither true nor an expression after blanks |
| `ControlPolicy.EventIff` | tools/control_audit.py:31-43 | An event is found exactly when what stands under `on`, or under the key YAML reads it as, is it, lists it or maps it |
| `ControlPolicy.SortedOnce` | tools/control_audit.py:55-61 | Each finding lands in exactly one of failed and waived, according to its waiver |
| `ControlPolicy.WaivedIff` | tools/control_audit.py:48-61 | A violation is waived exactly if the last exception for its code and its path, or the last for its code and the star, gives a non-empty reason, a missing path standing for the star |
| `ControlPolicy.ExitZeroIff` | tools/control_audit.py:46-164 | The audit exits 0 if and only if no workflow has a job whose steps are a truthy scalar or a checkout step whose `with` is truthy and no mapping, every violation has a non-empty reason under its own path or the star, and the policy names a scanner mode; it ends in an exception if and only if such a workflow exists or, all violations excused, the mode is missing; and exits 1 if and only if none exists and some violation is not excused |
| `ControlPolicy.AddedWaiverKeepsPass` | tools/control_audit.py:48-61 | Appending a waiver with a reason, or prepending any waiver, never turns a pass into a fail |
| `ControlPolicy.EmptyWaiverRevokesIff` | tools/control_audit.py:48-58 | An appended exception with an empty reason revokes an excuse exactly when it is for the path, or that gave no reason, and for the star, or that gave none |
| `ControlPolicy.LookupAppended` | tools/control_audit.py:48-51 | A later exception replaces an earlier one with the same key and leaves all others |
| `Totp.WordIs` | harnesses/lib/totp_validation_test_harness.py:57 | The masked big-endian word is, in numbers, its four bytes to the base 256, the first modulo 128 |
| `Totp.TruncatedIsDynamicTruncation` | harnesses/lib/totp_validation_test_harness.py:56-57 | For every 20-byte digest the truncated word is, in numbers, the four bytes to the base 256 from the place that the last byte modulo 16 says, the first of them modulo 128 (section 5.3 of RFC 4226) |
| `Totp.CodeIsSixDigits` | harnesses/lib/totp_validation_test_harness.py:52-58 | The code is always six digits and reads as the truncated value modulo one million |
| `Totp.TotpVerifier.constructor` | harnesses/lib/totp_validation_test_harness.py:64-66 | A new verifier has used no step |
| `Totp.TotpVerifier.Verify` | harnesses/lib/totp_validation_test_harness.py:71-78 | The method returns the stated verdict and marks the step used exactly when it accepts |
| `Totp.UsedBeforeIs` | harnesses/lib/totp_validation_test_harness.py:73-76 | At any point of a run the used steps are exactly those of the codes accepted before |
| `Totp.AcceptedIff` | harnesses/lib/totp_validation_test_harness.py:71-78 | In any run and for every clock reading a code is accepted if and only if no code of the clock's step was accepted before, the step fits eight bytes, and it is the step's code; it raises if and only if the step is unspent and does not fit, or the code is not ASCII |
| `Totp.OnePerStep` | harnesses/lib/totp_validation_test_harness.py:71-78 | In any run, whatever the clock does, the acceptances at readings in [a, b] number at most b/30 - a/30 + 1 (section 5.2 of RFC 6238) |
| `RunLength.RleEncode` | harnesses/lib/property_roundtrip_test_harness.py:38-46 | The loop that rewrites the last run or appends one computes the run list of the text's maximal runs |
| `RunLength.RoundTrip` | harnesses/lib/property_roundtrip_test_harness.py:38-50 | Decoding the encoding gives back every text, and the encoding has positive counts and distinct neighbours |
| `RunLength.CanonicalIsShortest` | harnesses/lib/property_roundtrip_test_harness.py:38-50 | Encoding the decoding never lengthens a run list, and returns it unchanged, or equally long, if and only if its counts are positive and its neighbours distinct |
| `RunLength.BuggyLength` | harnesses/lib/property_roundtrip_test_harness.py:54-55 | The planted decoder never returns more than the right one and agrees with it exactly when no count is one |
| `RunLength.BuggyRoundTripIff` | harnesses/lib/property_roundtrip_test_harness.py:54-55 | The planted decoder round-trips a text if and only if no character stands alone between different ones |
| `Webhook.SignedTextInjective` | harnesses/lib/webhook_signature_test_harness.py:63 | The signed text determines timestamp and payload, for all integers and all payloads, dots included |
| `Webhook.AcceptedIff` | harnesses/lib/webhook_signature_test_harness.py:61-75 | A signature made for one timestamp and payload is accepted for another at a given time if and only if both are the same and the timestamp is within 300 seconds |
| `Webhook.VerifyIff` | harnesses/lib/webhook_signature_test_harness.py:66-75 | Any signature text, malformed ones included, is accepted if and only if the timestamp is within 300 seconds and it spells in hexadecimal the MAC of timestamp, dot and payload |
| `Pkce.ChallengeShape` | harnesses/lib/oauth_pkce_test_harness.py:67-70 | Every challenge is 43 base64url characters, and two verifiers share one exactly when they share a digest (section 4.2 of RFC 7636) |
| `Pkce.PkceAuthServer.constructor` | harnesses/lib/oauth_pkce_test_harness.py:76-77 | A new server has no code |
| `Pkce.PkceAuthServer.Authorize` | harnesses/lib/oauth_pkce_test_harness.py:79-80 | Authorizing sets one code's challenge and touches no other |
| `Pkce.PkceAuthServer.ExchangeCode` | harnesses/lib/oauth_pkce_test_harness.py:82-89 | The method returns the stated outcome and removes the code exactly when it returns a token |
| `Pkce.Ledger` | harnesses/lib/oauth_pkce_test_harness.py:79-89 | At any point of any run, for each code, authorizations = redemptions + overwrites + live, with at most one live |
| `Pkce.TableIsLatest` | harnesses/lib/oauth_pkce_test_harness.py:79-89 | A code is live exactly when it was authorized and neither re-authorized nor redeemed since, and its challenge is that latest one's |
| `Pkce.OutcomeIff` | harnesses/lib/oauth_pkce_test_harness.py:82-89 | Every answer of an exchange at any point of any run: unknown exactly without a live authorization; by the latest one's challenge otherwise, raising where it is not ASCII, redeeming where it is the verifier's and a mismatch else |
| `Pkce.RedeemedIff` | harnesses/lib/oauth_pkce_test_harness.py:82-89 | An exchange redeems if and only if the verifier's challenge is the latest live challenge of the code (section 4.6 of RFC 7636) |
| `Pkce.NoDoubleRedemption` | harnesses/lib/oauth_pkce_test_harness.py:88-89 | Between two redemptions of a code it was authorized again |
| `Text.DecimalIntInjective` | harnesses/lib/webhook_signature_test_harness.py:63 | Printed integers are equal only for equal integers |
| `Text.ContainsIff` | tools/scan_staged.py:57 | The recursive substring test is occurrence at some position |
| `Text.SplitParts` | harnesses/lib/reset_token_design_test_harness.py:96 | Splitting cuts at every separator and nowhere else: joining gives the text back and no part holds a separator |
| `Text.SplitJoin` | harnesses/lib/jwt_alg_confusion_test_harness.py:100 | Splitting a joined list gives the list back if and only if no part holds the separator |
| `Text.RSplitUnique` | harnesses/lib/reset_token_design_test_harness.py:90 | The cut at the last separator is the only one whose tail is free of it |
| `Text.HexRoundTrip` | harnesses/lib/reset_token_design_test_harness.py:64-71 | Reading back printed hexadecimal gives the same bytes, and it holds no pipe |
| `Text.FromHexIff` | harnesses/lib/reset_token_design_test_harness.py:71 | `bytes.fromhex` reads exactly the texts made of pairs of digits, in either case, and blanks between pairs, as the bytes the pairs spell |
| `Text.StripIs` | tools/control_audit.py:70 | Stripping takes the blanks at both ends and nothing else |

## Left out

- DiffParsers.HunkStartIsPattern: ASCII digits only; Python's `\d` and `int` also take other decimal digits.
- DiffText.ParseAddedOfDiff: nothing cut off a removed line or a heading at a carriage return is to look like an added line, because then the result can be right by accident (DiffText.StrayStandsIn); what such a piece does is stated in DiffText.RemovedBreakForges.
- StagedScan.VerdictKeepsPromiseIff: no added text holds a boundary; with one, StagedScan.VerdictIsAboutAddedTexts and StagedScan.ReadCut say what is read of it.
- DiffReading.FileHead: file headers are the plain, the quoted and the `/dev/null` form, and hold no line boundary, because git quotes names that do under its default settings; binary patches and combined diffs are not rendered.
- DiffParsers.AddedLines: the generator is modelled as the list of everything it yields, so laziness is not captured.
- StagedScan.Scan: the secret patterns and the personal-path pattern are arbitrary predicates on a text.
- Base64Url.DecodesIff: Python's decoder skips characters outside the alphabet and also takes `+` and `/`; the model's decoder rejects them. Encoded segments never contain them.
- CompactToken.Forgeries: the library's RS256 signature, audience and issuer checks are one parameter, and claims are abstract objects under any JSON codec that reads back what it writes.
- Normalize.StableUnderAllOps: ASCII questions only, because case mappings do not commute outside ASCII.
- ResetToken.PyIntOfDecimal: `int` is modelled on ASCII digits, underscores, signs and blanks; other decimal digits are not taken.
- Webhook.AcceptedIff: a text stands for its UTF-8 encoding; a lone surrogate, which Python refuses to encode, is an ordinary character here.
- FileGuard.Guard.Update: a path is absent, a readable or an unreadable file; a directory in the place of a file is not modelled.
- FileGuard.CheckIsExact: histories contain the guard's own writes of the manifest only; edits of the manifest by others and partial writes are not events.
- VacuityGate.MutantIsFaithfulIff: a float is its bit pattern with an abstract addition of 1.0; Python's equalities across types (`True == 1`) and subclasses of the builtin types are not modelled.
- VacuityGate.RunGate: the worker's exit status is the low byte of the self-test's integer, as POSIX systems keep it; integers outside a C long and other systems are not modelled, and discovery of the harness modules is a parameter.
- VacuityGate.EqualityTeethIff: oracles are functions of their arguments; a stateful or asynchronous oracle is not modelled.
- Redelivery.ReportSeparatesIff: a returned message goes back to the head of the queue; the broker may place it elsewhere, which changes no count.
- ControlAuditor.Auditor.Audit: workflow discovery, file decoding and the YAML parser are parameters; an exception's traceback is not modelled beyond the run ending in it; a policy file without its required lists, or with an exception that has no code or a null reason, is not modelled, nor are YAML values beyond null, booleans, integers, text, lists and mappings.
- ControlPolicy.ExitZeroIff: reports are structured values; their one-line printed form and their printing order on two streams are not modelled.
- HMAC, SHA-1, SHA-256, MD5, RSA: internals and hardness. Constant-time comparison is modelled by its result.
- The drift auditor's pattern scans, its report and its harness-completeness check (`tools/audit_drift.py`): independent regular-expression searches over the records proved here.
- Command-line parsing, process handling, git calls, file reading, printing and Markdown reports of the tools: plumbing.
- The planted defects with one branch (a log that always verifies, a verifier that accepts any code, a server without the challenge check, an unverified webhook): true at a glance.
- The harnesses that only call another library or a running service, the property-test drivers and the self-test corpora: the universal statements above replace their sampling.
