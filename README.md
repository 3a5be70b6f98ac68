# Prompt bracket checker and crop-region arithmetic, in Dafny

This project models two self-contained pieces of the Stable Diffusion web UI
and proves properties of them.

**The prompt bracket-balance scanner** (`checkBrackets` of the
prompt-bracket-checker extension). It scans the prompt text once, left to
right. A run of backslashes that has a character after it toggles an
`escaped` flag, and the scan lands on the character after the run. Each
bracket is filed under a bucket: the plain bucket of its kind (round,
square, curly), or the `escaped` one of that kind. The bucket's counter goes
up for an opening bracket and down for a closing one. A closing bracket that
drives its counter below zero adds `Incorrect order of <bucket>.` to an
insertion-ordered set. After the scan, every bucket that was seen and has a
nonzero count adds an imbalance message: plain buckets first, then escaped
ones, each in table order. The counter element's tooltip is the messages
joined by newlines, and its `error` class is on iff there is a message.

- `decimal.dfy` (module `Decimal`): how `${n}` renders a count.
- `bracket_checker.dfy` (module `BracketChecker`): the data (`Kind`,
  `Bucket`, `Token`, `ScanState`), the scan as specification functions
  (`Resolve`, `Tokens`, `Step`, `Scan`, `Report`, `Messages`, `Render`), and
  the scan as the source writes it, with its loops (`ResolveEscapes`,
  `FileChar`, `ScanText`, `ReportCounts`, `CheckBrackets`). Each method is
  proved to compute its specification function.
- `bracket_proofs.dfy` (module `BracketProofs`): the properties. These cover
  the escape rule against a position-by-position reference, what one step
  does, counters as opens minus closes, when an order error appears and in
  which order, the exact shape of the report, and the no-bracket case.

**The integer crop-region arithmetic of `modules/masking.py`** (module
`Masking` in `masking.dfy`). It covers `get_crop_region_v2`,
`get_crop_region`, and `expand_too_small_crop_region` with its inner
`_expand_segment`. A mask enters only as what these functions read of it.
That is the bounding box PIL's `getbbox()` reports, `None` for an all-zero
mask, and the mask size.

Modelling choices:

- The source keys `counts` by the label string (`"round brackets"`,
  `"escaped round brackets"`, ...). The model keys it by `Bucket(kind,
  escaped)`. `BracketProofs.LabelInjective` shows that labels and buckets
  correspond one to one.
- The JavaScript `Set` of messages is a sequence that `Insert` extends only
  with a message not already in it. A `Set` iterates in insertion order, and
  the tooltip shows that order.
- `counts[lb] || 0` reads an absent key as zero (`Get`).
- Escaped brackets are counted in their own buckets, as `checkBrackets`
  does. The message order is fixed by the code and proved in
  `MessagesShape`.
- Python's `pad` truthiness (`if pad`) is `pad != 0`. A returned tuple is
  always truthy, so `get_crop_region` falls back only when the mask's box is
  `None`.
- `diff // 2` is taken only for `diff > 0`, where Python's floor division
  and Dafny's `/` agree.

## Model

| member | source | states |
|---|---|---|
| `Decimal.FromNat` | extensions-builtin/prompt-bracket-checker/javascript/prompt-bracket-checker.js:49 | A rendered count is a non-empty string of decimal digits with no leading zero, and is "0" only for zero |
| `Decimal.ValueOfFromNat` | extensions-builtin/prompt-bracket-checker/javascript/prompt-bracket-checker.js:49 | Reading a rendered count back gives the count |
| `Decimal.FromNatInjective` | extensions-builtin/prompt-bracket-checker/javascript/prompt-bracket-checker.js:49 | Different counts render differently |
| `BracketChecker.Insert` | extensions-builtin/prompt-bracket-checker/javascript/prompt-bracket-checker.js:35 | `Set.add` on the message list: the new message is present afterwards and every earlier one stays in place. Adding a message already present changes nothing, so a duplicate-free list stays duplicate-free. The list grows by at most one |
| `BracketChecker.OrderMessage` | extensions-builtin/prompt-bracket-checker/javascript/prompt-bracket-checker.js:35 | The order message is `Incorrect order of ` plus the bucket's key plus `.`, and the key can be read back from it. `OrderMessageInjective` and `ImbalanceIsNotOrder` tell it apart from every other message |
| `BracketChecker.ImbalanceMessage` | extensions-builtin/prompt-bracket-checker/javascript/prompt-bracket-checker.js:48-66 | An imbalance message begins with the bucket's open symbol, with a backslash before it for an escaped bucket, and ends with a period. `ImbalanceHead`, `ImbalanceBucketsDiffer` and `ImbalanceReported` state which bucket and count it names |
| `BracketChecker.OddIsParity` | extensions-builtin/prompt-bracket-checker/javascript/prompt-bracket-checker.js:20-22 | Toggling a flag that starts false once per backslash leaves it set iff the number of backslashes is odd (`n % 2 == 1`) |
| `BracketChecker.Resolve` | extensions-builtin/prompt-bracket-checker/javascript/prompt-bracket-checker.js:19-25 | From a position, the scan lands on the first character that is not a backslash, or on the last character. Everything skipped is a backslash. The escaped flag is on iff an odd number was skipped |
| `BracketChecker.TokensFrom` | extensions-builtin/prompt-bracket-checker/javascript/prompt-bracket-checker.js:18-41 | From position i the scan classifies at most one character per remaining position, and classifies none exactly when i is the end. `TokensMatchReference` and `EscapeRule` state which characters it classifies |
| `BracketChecker.Tokens` | extensions-builtin/prompt-bracket-checker/javascript/prompt-bracket-checker.js:14-41 | The whole text yields at most one classified character per position, and none exactly for the empty text. `EscapeRule` characterises them |
| `BracketChecker.ResolveEscapes` | extensions-builtin/prompt-bracket-checker/javascript/prompt-bracket-checker.js:19-25 | The inner `while` loop lands where `Resolve` says, with the flag `Resolve` gives |
| `BracketChecker.TokensAdvance` | extensions-builtin/prompt-bracket-checker/javascript/prompt-bracket-checker.js:18-26 | From the current position, the character the escape loop lands on is the next classified character, and classification resumes just after it |
| `BracketChecker.FileChar` | extensions-builtin/prompt-bracket-checker/javascript/prompt-bracket-checker.js:27-38 | The `for` over the pairs table updates counters and errors exactly as one scan step `Step` does |
| `BracketChecker.ScanAppend` | extensions-builtin/prompt-bracket-checker/javascript/prompt-bracket-checker.js:18-40 | Filing one more character after a prefix of the text is one more scan step on the state left by that prefix |
| `BracketChecker.StepPair` | extensions-builtin/prompt-bracket-checker/javascript/prompt-bracket-checker.js:28-37 | One row of the pairs table leaves the state alone unless the character is that row's open or close bracket. It defines no key other than the character's bucket, and it adds at most one message at the end. `OwnPairEffect` states its exact effect |
| `BracketChecker.StepPairs` | extensions-builtin/prompt-bracket-checker/javascript/prompt-bracket-checker.js:27-38 | Running the first rows of the pairs table only appends to the messages |
| `BracketChecker.StepPairsNext` | extensions-builtin/prompt-bracket-checker/javascript/prompt-bracket-checker.js:27-38 | One more iteration of the `for` over the pairs table applies the next row to the state left by the earlier ones |
| `BracketChecker.Step` | extensions-builtin/prompt-bracket-checker/javascript/prompt-bracket-checker.js:27-38 | Filing one character adds at most one message, at the end: a character matches at most one row. `StepEffect` states the exact counters and messages |
| `BracketChecker.Scan` | extensions-builtin/prompt-bracket-checker/javascript/prompt-bracket-checker.js:14-41 | The scan records no more order errors than characters classified. `CountsAreNet`, `OrderErrorIff` and `OrderErrorsInTriggerOrder` state its counters and errors |
| `BracketChecker.ScanText` | extensions-builtin/prompt-bracket-checker/javascript/prompt-bracket-checker.js:14-41 | The main loop ends with the counters and order errors of `Scan(Tokens(text))`. Its invariant: the tokens classified so far followed by the tokens still ahead are all tokens of the text |
| `BracketChecker.ReportCounts` | extensions-builtin/prompt-bracket-checker/javascript/prompt-bracket-checker.js:43-68 | The two reporting loops produce `ReportAll` over the plain, then the escaped buckets, in table order |
| `BracketChecker.ReportBucket` | extensions-builtin/prompt-bracket-checker/javascript/prompt-bracket-checker.js:43-67 | One reporting iteration appends at most one message. A defined bucket with a nonzero count has its imbalance message present afterwards. An undefined or zero bucket changes nothing |
| `BracketChecker.ReportAll` | extensions-builtin/prompt-bracket-checker/javascript/prompt-bracket-checker.js:43-68 | The reporting loops only append, at most one message per bucket visited. `ReportAppendsImbalances` states exactly which messages |
| `BracketChecker.ReportAllNext` | extensions-builtin/prompt-bracket-checker/javascript/prompt-bracket-checker.js:43-68 | One more iteration of a reporting loop reports the next bucket on the messages left by the earlier ones |
| `BracketChecker.Messages` | extensions-builtin/prompt-bracket-checker/javascript/prompt-bracket-checker.js:13-68 | The result starts with the scan's order errors and has at most as many messages as the text has characters, plus six. `MessagesShape` and `ImbalanceReported` state its exact shape |
| `BracketChecker.CheckBrackets` | extensions-builtin/prompt-bracket-checker/javascript/prompt-bracket-checker.js:13-72 | The whole routine returns `Messages(text)`, plus the tooltip and indicator rendered from them |
| `BracketChecker.Join` | extensions-builtin/prompt-bracket-checker/javascript/prompt-bracket-checker.js:70 | Joining no messages gives the empty tooltip, and joining one gives that message. A joined tooltip ends with the last message and holds a newline when there are several |
| `BracketChecker.Render` | extensions-builtin/prompt-bracket-checker/javascript/prompt-bracket-checker.js:70-71 | The error class is on iff there is a message. When every message is non-empty, the tooltip is empty iff the error class is off |
| `BracketProofs.LabelRoundTrip` | extensions-builtin/prompt-bracket-checker/javascript/prompt-bracket-checker.js:28 | A bucket can be read back from its label |
| `BracketProofs.LabelInjective` | extensions-builtin/prompt-bracket-checker/javascript/prompt-bracket-checker.js:28 | Distinct buckets have distinct dictionary keys |
| `BracketProofs.OrderMessageInjective` | extensions-builtin/prompt-bracket-checker/javascript/prompt-bracket-checker.js:35 | Distinct buckets have distinct order messages, so the set never merges two of them |
| `BracketProofs.ImbalanceHead` | extensions-builtin/prompt-bracket-checker/javascript/prompt-bracket-checker.js:49-66 | An imbalance message starts with the bucket's open symbol, which has a backslash before it for an escaped bucket |
| `BracketProofs.ImbalanceIsNotOrder` | extensions-builtin/prompt-bracket-checker/javascript/prompt-bracket-checker.js:35-49 | No imbalance message equals an order message |
| `BracketProofs.ImbalanceBucketsDiffer` | extensions-builtin/prompt-bracket-checker/javascript/prompt-bracket-checker.js:49-66 | Imbalance messages of different buckets differ, whatever their counts |
| `BracketProofs.TokensMatchReference` | extensions-builtin/prompt-bracket-checker/javascript/prompt-bracket-checker.js:18-41 | From any position where a backslash run starts, the scan classifies exactly the characters of the reference reading, with the same escape flags |
| `BracketProofs.EscapeRule` | extensions-builtin/prompt-bracket-checker/javascript/prompt-bracket-checker.js:18-25 | The characters the scan classifies are, in text order and each once, every character that is not a backslash followed by another character. Each is escaped iff an odd number of backslashes stands immediately before it, so backslashes are never classified except a final one, and the flag starts false at every new position |
| `BracketProofs.EscapeExamples` | extensions-builtin/prompt-bracket-checker/javascript/prompt-bracket-checker.js:19-25 | One backslash escapes the next `(` and two do not. A final lone backslash is classified, unescaped, as itself |
| `BracketProofs.TokenCharsFromText` | extensions-builtin/prompt-bracket-checker/javascript/prompt-bracket-checker.js:19-24 | Every classified character occurs in the text |
| `BracketProofs.StepIsOwnPair` | extensions-builtin/prompt-bracket-checker/javascript/prompt-bracket-checker.js:27-38 | Of the three rows of the pairs table, only the row of the character's own kind has any effect |
| `BracketProofs.StepInert` | extensions-builtin/prompt-bracket-checker/javascript/prompt-bracket-checker.js:27-38 | A character that is no bracket leaves counters and errors unchanged |
| `BracketProofs.OwnPairEffect` | extensions-builtin/prompt-bracket-checker/javascript/prompt-bracket-checker.js:27-38 | The row of the character's own kind moves only the character's bucket, by +1 for an opening and -1 for a closing. It records that bucket's order message exactly when a closing bracket meets a count below 1 |
| `BracketProofs.StepEffect` | extensions-builtin/prompt-bracket-checker/javascript/prompt-bracket-checker.js:27-37 | A bracket changes only its own bucket's counter: by +1 for an opening and by -1 for a closing. It defines only that bucket. It adds an order error exactly when it is a closing bracket whose bucket was below 1. Any other character changes nothing |
| `BracketProofs.NetAppend` | extensions-builtin/prompt-bracket-checker/javascript/prompt-bracket-checker.js:31-33 | Opens minus closes of a bucket changes by the new token's contribution |
| `BracketProofs.CountsAreNet` | extensions-builtin/prompt-bracket-checker/javascript/prompt-bracket-checker.js:31-33 | After the scan each bucket's count is the number of opens minus the number of closes filed under it. A bucket is defined iff at least one bracket was filed under it |
| `BracketProofs.OrderErrorStep` | extensions-builtin/prompt-bracket-checker/javascript/prompt-bracket-checker.js:32-36 | After one more character, a bucket's order message is present iff it already was, or the character closes that bucket while its opens minus closes are below 1 |
| `BracketProofs.WentNegativeStep` | extensions-builtin/prompt-bracket-checker/javascript/prompt-bracket-checker.js:31-33 | A bucket has gone below zero after one more character iff it had before, or the new total is below zero |
| `BracketProofs.ScanErrorsShape` | extensions-builtin/prompt-bracket-checker/javascript/prompt-bracket-checker.js:15-35 | The errors collected during the scan are order messages, none twice |
| `BracketProofs.OrderErrorIff` | extensions-builtin/prompt-bracket-checker/javascript/prompt-bracket-checker.js:32-36 | `Incorrect order of <bucket>.` is recorded iff some prefix of the classified characters drives that bucket's opens minus closes below zero. The count is never reset |
| `BracketProofs.ErrorsOnlyAppended` | extensions-builtin/prompt-bracket-checker/javascript/prompt-bracket-checker.js:35 | The errors after any prefix of the scan are a prefix of the final errors |
| `BracketProofs.OrderErrorsInTriggerOrder` | extensions-builtin/prompt-bracket-checker/javascript/prompt-bracket-checker.js:15-36 | Order errors stand in first-trigger order. The first entries, as many as were recorded after k characters, hold a bucket's order message iff that bucket went negative within those k characters |
| `BracketProofs.ImbalancesMembers` | extensions-builtin/prompt-bracket-checker/javascript/prompt-bracket-checker.js:43-68 | The reference report holds an imbalance message for a bucket iff the bucket is listed, defined and nonzero. That message states the bucket's count |
| `BracketProofs.ReportAppendsImbalances` | extensions-builtin/prompt-bracket-checker/javascript/prompt-bracket-checker.js:43-68 | The reporting loops never hit an already present message. They append exactly one imbalance message per defined nonzero bucket, in bucket order |
| `BracketProofs.ReportKeepsNoDuplicates` | extensions-builtin/prompt-bracket-checker/javascript/prompt-bracket-checker.js:49-66 | The report adds no duplicate |
| `BracketProofs.NoCountsNoImbalances` | extensions-builtin/prompt-bracket-checker/javascript/prompt-bracket-checker.js:43-46 | With no bucket defined, the report adds nothing |
| `BracketProofs.MessagesShape` | extensions-builtin/prompt-bracket-checker/javascript/prompt-bracket-checker.js:13-68 | The result is the order errors, then the plain imbalance messages (round, square, curly), then the escaped ones in the same order, with no duplicates |
| `BracketProofs.ImbalanceReported` | extensions-builtin/prompt-bracket-checker/javascript/prompt-bracket-checker.js:43-68 | For each bucket with nonzero opens minus closes c, the result holds the message stating c, with the "more opening" form if c > 0 and the "more closing" form with -c if c < 0. Every imbalance message of that bucket in the result is that message. A bucket whose opens and closes balance, or that never appeared, has none |
| `BracketProofs.InertScan` | extensions-builtin/prompt-bracket-checker/javascript/prompt-bracket-checker.js:18-41 | Scanning characters none of which is a bracket leaves the initial state |
| `BracketProofs.NoBracketsNoMessages` | extensions-builtin/prompt-bracket-checker/javascript/prompt-bracket-checker.js:18-71 | Text without brackets, the empty text included, yields no message, an empty tooltip and the indicator off |
| `Masking.GetCropRegionV2` | modules/masking.py:4-19 | The result is None iff the mask has no box. With pad 0 it is the box unchanged. Otherwise each side moves outward by pad unless that crosses the mask's border, where it is clamped, so the result lies within [0, width] x [0, height]. For a positive pad it contains the box |
| `Masking.GetCropRegion` | modules/masking.py:22-36 | It is the v2 region whenever that exists. For an all-zero mask it is (max(w-pad,0), max(h-pad,0), min(pad,w), min(pad,h)) |
| `Masking.AllZeroMaskInverted` | modules/masking.py:24-27 | For an all-zero mask and pad >= 0, the fallback region is inverted horizontally (x1 > x2) iff 2*pad < width, and vertically iff 2*pad < height |
| `Masking.AllZeroMaskLargePad` | modules/masking.py:26-27 | For an all-zero mask and a pad at least the mask size, the fallback region is the whole mask |
| `Masking.ExpandSegment` | modules/masking.py:83-96 | A segment at least the desired length is unchanged. Otherwise, with d the missing length, the left end moves left by d // 2 and the right end right by the rest, so the two sides differ by at most one. A segment pushed below 0 becomes [0, min(desired, maximal)). One pushed to or past maximal becomes [max(maximal - desired, 0), maximal). A shorter segment inside [0, maximal] stays inside, contains the old one, and gets length min(desired, maximal) |
| `Masking.ExpandSegmentIdempotent` | modules/masking.py:83-96 | Expanding an expanded segment inside the bounds changes nothing |
| `Masking.ExpandTooSmallCropRegion` | modules/masking.py:80-104 | The region is reported corrected iff it changed. A region at least the processing size is unchanged. A region inside the image stays inside it and contains the old one. Each too-small side gets length min(processing size, image size) |
| `Masking.ExpandAxesIndependent` | modules/masking.py:98-100 | The new x pair depends only on the old x pair, the processing width and the image width. The new y pair depends only on the old y pair and the two heights |
| `Masking.ExpandTooSmallIdempotent` | modules/masking.py:80-104 | A region inside the image, once expanded, is not corrected again |

## Left out

- Everything around `checkBrackets` that talks to the page: `setupBracketChecking`, the debounced `onEdit` registration, the `onUiLoaded` wiring, and the element lookups. The two writes to the counter element are modelled as the returned `Indicator`.
- Decimal.FromNat: models `${n}` only for the counts that can occur. JavaScript numbers are doubles, and the model does not render a count past 2^53 or in exponent notation, which no prompt can reach.
- BracketChecker.Join: no splitting inverse is proved. The tooltip is only shown to be empty iff there is no message, and to end with the last message.
- The end-to-end example strings for the whole message list (for instance `"(()"` giving a single round-bracket message) are not proved as separate lemmas. `ImbalanceReported`, `OrderErrorIff` and `MessagesShape` cover them for all inputs. `EscapeExamples` proves the escape part of such examples.
- `javascript/settings.js`: settings-panel search and display toggling, sysinfo download. It is DOM glue with no logic of its own to verify.
- `modules/hashes.py`: SHA-256 hashing of files, reads, modification times and an on-disk cache. All of it is I/O or a library hash, and the only own logic is the cache-validity check around it.
- `masking.fill`: Gaussian blur and alpha compositing in PIL.
- `masking.expand_crop_region`: it works with floating-point ratios and `int()` truncation of float results, which this integer model does not represent.
- PIL's `getbbox()` and `Image.fromarray`: the bounding box and the mask size are inputs (`Mask`).
- The notice `expand_too_small_crop_region` prints when it corrects a region: modelled as the returned `corrected` flag.
