# S3 Cloudflare policy writer: the reconciliation engine

A Dafny model of `exports.handler` in `handlers/index.cjs`. The handler keeps
one managed statement in the bucket policy of every target S3 bucket. That
statement allows `s3:GetObject` from Cloudflare's published IP ranges. The
handler works in five steps:

1. It fetches the IPv4 and IPv6 range lists and normalises them into one
   range list.
2. It splits the `TARGET_BUCKETS` list into bucket names.
3. In a first pass, it locates every bucket, fetches its policy and decides
   whether the managed statement differs from the canonical one.
4. If any bucket's state is unknown, it reports those buckets and stops
   without writing.
5. In a second pass, it rewrites every differing policy: it removes every
   statement with the managed Sid, appends the canonical statement and sends
   the policy with PutBucketPolicy. It then reports the write failures.

The model is purely functional:

- Every answer from AWS and from the HTTP fetches is an input. This covers
  `FetchResponse`, `LocationResponse`, `PolicyResponse` and `PutResponse`.
- A policy is modelled after `JSON.parse`. It is either `Absent`,
  `Unparsable` or `Parsed` into a JSON object.
- JSON objects are maps, so deep equality of statements does not depend on
  key order, as with `assert.deepStrictEqual` on parsed documents.
- An invocation ends as a `RunResult`. It holds:
  - the PutBucketPolicy requests sent, in order;
  - the logged success count;
  - the two failure tables, as bucket names;
  - how the handler ended: `return true`, a bare `return`, or a throw.

Modules:

| module | covers |
|---|---|
| `Wrappers` | `Option` |
| `Seqs` | `Array.prototype.filter` |
| `Strings` | `String.prototype.split` and `Array.prototype.join` with a one-character separator |
| `JsonValues` | parsed JSON values |
| `Ranges` | range normalisation and the bucket list |
| `ManagedStatement` | the canonical statement and the Sid predicates |
| `Differ` | the first-pass verdict for one policy |
| `Updater` | the rewritten policy |
| `Fleet` | the two passes, the gate and the whole handler |
| `Scenarios` | concrete small runs |

In these places the code behaves in ways worth stating, and the model
follows the code:

- **Fetch status.** The range feeds' HTTP status is never inspected
  (lines 57-58). The body of any response, an error page included, is taken
  as a range list. Only a transport failure, which rejects the awaited
  promise, stops the run. `Ranges.StatusIgnored` states this.
- **Statements that crash the first pass.** A parsed policy whose
  `Statement` array holds `null` throws a TypeError outside any `try` while
  filtering by Sid (line 171). The same happens when the policy has an own
  key `hasOwnProperty`, which shadows the method called on line 161. Either
  one rejects the whole invocation before any write, and no failure table is
  printed. `Differ.Diff` returns `Uncaught` for both cases, and `Fleet.Run`
  turns that into `Threw`.
- **Reply without a Policy field.** A GetBucketPolicy reply without a
  `Policy` field fails at `targetPolicy.length` (line 129). That read happens
  even when verbose logging is off. Its TypeError message is not the
  "policy does not exist" sentinel, so the bucket is recorded as a get
  failure.
- **`Statement` that is not an array.** When `Statement` is present but is
  not an array (a single statement object, say), the updater discards it
  and keeps only the canonical statement (lines 244-245).
- **`$` in a bucket name.** The bucket name is substituted with
  `String.prototype.replace`, so `$` patterns in a bucket name are expanded
  (`ManagedStatement.Expand`). Real bucket names cannot contain `$`. For
  such names the Resource is `arn:aws:s3:::<bucket>/*`.

## Model

| member | source | states |
|---|---|---|
| Seqs.Filter | handlers/index.cjs:61 | The kept elements are elements of the input that pass the test, none is longer than the input, and every element that passes is kept |
| Strings.Split | handlers/index.cjs:59-60 | Splitting always yields at least one piece, and no piece contains the separator |
| Strings.JoinSplit | handlers/index.cjs:59-60 | Joining the pieces of a split with the separator gives back the original text, so nothing is lost by splitting |
| Strings.SplitJoin | handlers/index.cjs:74-75 | Splitting pieces that were joined with a separator none of them contains gives back exactly those pieces |
| Strings.SplitAround | handlers/index.cjs:59-60 | Splitting `a + "\n" + b` is splitting `a` followed by splitting `b` |
| Ranges.FeedText | handlers/index.cjs:57-58 | A feed yields text exactly when the fetch did not fail in transport |
| Ranges.StatusIgnored | handlers/index.cjs:57-58 | Two responses with the same body give the same range text whatever their HTTP statuses |
| Ranges.NormaliseRanges | handlers/index.cjs:59-62 | Every normalised range is non-empty and holds no newline |
| Ranges.RangesPerFeed | handlers/index.cjs:59-62 | The range list is the non-blank lines of the IPv4 feed followed by those of the IPv6 feed, each in feed order |
| Ranges.RangesOfCleanFeeds | handlers/index.cjs:59-62 | Feeds made of non-blank lines give back exactly those lines, IPv4 first, with nothing dropped, merged or reordered |
| Ranges.BucketNames | handlers/index.cjs:71-77 | An unset or empty bucket list is refused. Otherwise the names joined with commas give back the list, and no name contains a comma |
| ManagedStatement.Expand | handlers/index.cjs:178 | A replacement text without `$` is inserted verbatim |
| ManagedStatement.ExpandPatterns | handlers/index.cjs:178 | In the inserted bucket name, `$$` becomes `$`, `$&` the placeholder, `` $` `` the ARN prefix and `$'` the `/*` suffix |
| ManagedStatement.ExpandLoneDollar | handlers/index.cjs:178 | A `$` that starts none of those patterns is inserted as it is |
| ManagedStatement.ResourceFor | handlers/index.cjs:177-178 | For a `$`-free bucket name the Resource is `arn:aws:s3:::` + name + `/*`. Any Resource starts with the ARN prefix |
| ManagedStatement.ResourceInjective | handlers/index.cjs:177-178 | Distinct `$`-free bucket names get distinct Resources |
| ManagedStatement.Canonical | handlers/index.cjs:19-34 | The canonical statement carries the managed Sid |
| ManagedStatement.CanonicalFields | handlers/index.cjs:19-34 | The canonical statement has exactly the template's six keys: the fixed Sid, `Allow`, `s3:GetObject`, principal `*`, and the bucket's Resource |
| ManagedStatement.CanonicalSourceIps | handlers/index.cjs:29-34 | Reading `Condition.IpAddress["aws:SourceIp"]` back from the canonical statement gives the range list exactly, duplicates and order kept |
| ManagedStatement.IsManaged | handlers/index.cjs:171 | A statement is managed exactly when reading its `Sid` property gives the managed identifier |
| ManagedStatement.IsForeign | handlers/index.cjs:248 | A statement is kept by the updater exactly when its `Sid` property is missing or another value |
| ManagedStatement.Managed | handlers/index.cjs:171 | The managed statements found are statements of the list carrying the managed Sid, and every such statement is found |
| ManagedStatement.Foreign | handlers/index.cjs:248 | The statements kept are statements of the list without the managed Sid, and every such statement is kept |
| ManagedStatement.ManagedForeignPartition | handlers/index.cjs:171 | Every statement is either found as managed or kept as foreign, so the two counts add up to the list's length |
| ManagedStatement.CanonicalInjective | handlers/index.cjs:177-178 | Equal canonical statements have equal range lists and equal Resources, and, for `$`-free names, the same bucket |
| Differ.StatementList | handlers/index.cjs:160-164 | A statement list exists exactly when `Statement` is present and is an array, and it is that array's items |
| Differ.Diff | handlers/index.cjs:138-194 | A parse failure exactly for unparsable text. An uncaught TypeError exactly for a parsed policy with a null statement or an own `hasOwnProperty` key. An absent or empty policy differs. A policy without a statement array differs |
| Differ.InSyncIff | handlers/index.cjs:170-194 | An inspectable policy is in sync exactly when its statement list holds the canonical statement at one index and no other statement carries the managed Sid |
| Differ.MissingOrDuplicatedDiffers | handlers/index.cjs:186-193 | Zero managed statements, or two or more, always differ |
| Differ.StaleStatementDiffers | handlers/index.cjs:172-185 | A single managed statement that is not deep-equal to the canonical one differs |
| Updater.Base | handlers/index.cjs:239-242 | The update starts from the parsed policy, or from the `2012-10-17` skeleton when there is none |
| Updater.ExistingStatements | handlers/index.cjs:243-249 | The statements the update filters are the policy's `Statement` array, or none when there is no policy or `Statement` is missing or not an array |
| Updater.Update | handlers/index.cjs:239-254 | The rewritten policy has the original keys plus `Statement`. Every other key keeps its value. `Statement` is an array |
| Updater.UpdateStatements | handlers/index.cjs:243-254 | The new statement list ends with the canonical statement. That is its only managed statement. Its foreign statements are exactly the old ones, in order |
| Updater.AbsentPolicyGetsSkeleton | handlers/index.cjs:239-242 | A bucket without a policy gets the `2012-10-17` skeleton holding only the canonical statement |
| Updater.ForeignThenManaged | handlers/index.cjs:247-254 | Appending a managed statement to the foreign statements of a list leaves it as the only managed one and the foreign ones unchanged |
| Updater.ForeignSurvive | handlers/index.cjs:247-248 | Every statement without the managed Sid survives the rewrite |
| Updater.NonArrayStatementDiscarded | handlers/index.cjs:244-245 | A `Statement` that is not an array is replaced by the canonical statement alone |
| Updater.UpdateIdempotent | handlers/index.cjs:239-254 | Rewriting a rewritten policy changes nothing |
| Updater.UpdatedReadable | handlers/index.cjs:239-254 | A rewritten policy can be inspected again without throwing |
| Updater.UpdateThenDiffInSync | handlers/index.cjs:239-254 | The differ finds every rewritten policy in sync |
| Fleet.FetchPolicy | handlers/index.cjs:120-136 | A reply carrying Policy text passes that text on. The sentinel error means "no policy". A reply without a Policy field, or any other error, is a get failure |
| Fleet.ProbeTarget | handlers/index.cjs:91-197 | A get failure exactly when the location or the policy cannot be read. A parse failure exactly for unparsable policy text. An uncaught TypeError exactly for a parsed policy the handler cannot inspect. Otherwise the bucket is inspected: its region, its parsed policy (none when absent) and the differ's verdict are kept, and it can be rewritten |
| Fleet.Pass1 | handlers/index.cjs:91-197 | The first pass keeps one record per listed bucket, in list order, holding that bucket's probe |
| Fleet.WritePass | handlers/index.cjs:230-269 | The successes plus the failures equal the requests sent |
| Fleet.WritePassSummary | handlers/index.cjs:230-269 | The second pass sends requests for exactly the differing buckets, in list order. The count is the number of accepted requests, and the failure table names the rejected buckets in order |
| Fleet.Run | handlers/index.cjs:87-299 | The invocation throws exactly when some bucket's inspection threw, and then nothing is sent or reported. The success count plus the put failures equal the requests sent. A non-empty get/parse failure table means no request and a bare return |
| Fleet.GateBlocksWrites | handlers/index.cjs:199-222 | A bucket whose location or policy could not be read, whose policy could not be parsed, or whose inspection threw means no request, no success and no `true` |
| Fleet.GetParseReport | handlers/index.cjs:208-221 | Without a crash, the bail-out table names exactly the buckets with a get or parse failure, and the run returns nothing |
| Fleet.AllInSyncReturnsTrue | handlers/index.cjs:224-228 | When every bucket was inspected and none differs, the run sends nothing and returns true |
| Fleet.SucceedsIff | handlers/index.cjs:199-299 | The run returns true exactly when every bucket was inspected and every request it had to send was accepted |
| Fleet.PutsNeedInspection | handlers/index.cjs:199-222 | A request is sent only when every bucket was inspected |
| Fleet.WritesOnlyDiffering | handlers/index.cjs:232-263 | Each request sent carries the updated policy of a bucket the first pass found differing, to that bucket's region |
| Fleet.EveryDifferingWritten | handlers/index.cjs:232-263 | Without unknown state, every differing bucket gets its request |
| Fleet.SuccessCount | handlers/index.cjs:264-296 | Without unknown state, the logged count is the number of accepted requests, and the put-failure table names the rejected buckets |
| Fleet.AfterRunInSync | handlers/index.cjs:239-263 | A bucket that was inspected, and rewritten if it differed, is in sync on the next invocation |
| Fleet.RerunWritesNothing | handlers/index.cjs:224-228 | After a run that returned true, a second run with the same ranges sends nothing and returns true |
| Fleet.PutsCarryCanonical | handlers/index.cjs:251-263 | Every policy sent has a statement array whose only managed statement is the canonical one for that bucket |
| Fleet.Handler | handlers/index.cjs:36-77 | A failed feed fetch, or an unset or empty bucket list, throws before any bucket is touched |
| Scenarios.OneRangePerFeed | handlers/index.cjs:59-62 | One IPv4 and one IPv6 range give a two-entry list, IPv4 first |
| Scenarios.NewBucketWrittenOnce | handlers/index.cjs:120-144 | A lone bucket without a policy gets one request, to its region, and the run returns true |
| Scenarios.NewBucketPolicy | handlers/index.cjs:239-254 | The policy written for a new bucket is the skeleton holding the fully spelled-out canonical statement |
| Scenarios.UnparsableBlocksInSync | handlers/index.cjs:146-157 | An unparsable policy blocks every write, even to an in-sync bucket, and only the unparsable bucket is reported |
| Scenarios.FirstBlockedReport | handlers/index.cjs:199-222 | Of two buckets, an unparsable first one and an inspected second one, only the first is reported and nothing is sent |
| Scenarios.UnparsableProbe | handlers/index.cjs:146-157 | Unparsable policy text is recorded as a parse failure |
| Scenarios.InSyncProbe | handlers/index.cjs:170-194 | A readable bucket whose policy is in sync is inspected and does not differ |
| Scenarios.DollarNameResource | handlers/index.cjs:178 | A bucket name `a$&` gives the Resource `arn:aws:s3:::a__BUCKET_NAME__/*` |
| Scenarios.SoleCanonicalInSync | handlers/index.cjs:171-181 | A policy holding only the canonical statement is in sync |
| Scenarios.SentinelMeansAbsent | handlers/index.cjs:130-144 | The "policy does not exist" error makes a bucket differ, not fail |

## Left out

- The HTTP fetches of the range feeds and the S3 GetBucketLocation,
  GetBucketPolicy and PutBucketPolicy calls. Their outcomes are inputs.
  The real answers come from the network.
- The `'us-east-1'` default for a missing `LocationConstraint` (line 102).
  The region is taken as the bucket's answer. The default applies only to
  an undefined value, and what a null one does depends on the SDK.
- The per-region client cache (lines 80-85, 109-113). It only chooses which
  SDK client object sends a request, and the model sends every request to
  the bucket's region directly.
- `JSON.parse` and `JSON.stringify` as text codecs. A policy is given
  already classified as absent, unparsable or a parsed object.
- Top-level policies that are valid JSON but not an object, such as `null`,
  a number or an array. They make the handler throw or misbehave in ways
  the object model does not describe.
- JSON numbers. They are integers here, because the statements compared
  hold no fractional numbers of their own.
- Extraction of the account id from the function ARN (line 67), the
  `ExpectedBucketOwner` parameter, `process.env` reads, `verbose` logging
  and the contents of `console.table`. The failure tables keep the bucket
  names, not the error texts.
- `index.mjs`, the build script that minifies the handler into a
  template. It is file I/O and a foreign minifier.
- Fleet.Run: its contract states the throw, the counts and the get/parse
  bail-out. Its other promises are proved as separate lemmas:
  `GateBlocksWrites`, `GetParseReport`, `AllInSyncReturnsTrue`,
  `SucceedsIff`, `WritesOnlyDiffering`, `EveryDifferingWritten` and
  `SuccessCount`. Stating them all on the function makes every use of it
  too costly to verify.
- Updater.Update: requires the current policy to hold no null statement.
  The differ has already thrown on such a policy, so the second pass never
  sees one.
- Fleet.Handler: states only the pre-flight failures. Past them, it is
  `Run` over the normalised ranges and the split bucket list.
- Fleet.Targets: each listed entry gets its own answers by position. A
  bucket listed twice may therefore be answered differently each time,
  which is more general than the real S3.
