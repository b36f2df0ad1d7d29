# QuickenHosts hosts updater, modelled in Dafny

QuickenHosts keeps a block of GitHub host entries in the system hosts file up to date.
The block sits between the lines `#------ Quicken Hosts Start ------` and
`#------ Quicken Hosts End ------`. This project models how the block is built and how
the hosts text is patched:

- **Looking up one host** (`getIPAddresses`, `extractIPAddresses`, `getOptimalIp`). The
  lookup page is scanned for dotted quads inside the answer region. The candidates are
  de-duplicated and probed, and the fastest one is chosen. The whole attempt runs under
  `retrySync`.
- **Assembling the entries** (`getHostsData`, `validateIP`, `buildHosts`). Successful
  lookups whose result is an IPv4 or IPv6 address are kept in host-list order. Each
  entry is rendered as the address padded to 20 columns, followed by the host name.
- **Patching the hosts text** (`hostsUpdate`). The patch takes the text's own line
  ending and writes a framed block with a time stamp. It decides from the existing
  block whether the entries are already current. It replaces the first block, or
  appends one, and then flushes the DNS cache.
- **The general helpers** `lJust`, `splitLines`, `transferCamel`, `retrySync` and
  `mergeDeep`.

Modules:

- `Text`: string primitives the source gets from JavaScript — terminators, `indexOf`,
  `split` and `join`, `trim`.
- `Outcomes`: settled promises.
- `HostsConfig`: the two markers.
- `IpScan`: the regular expressions of `extractIPAddresses` and `validateIP`, written
  as scanners, with lemmas tying each scanner to a declarative description.
- `Selection`: `getOptimalIp` and `getIPAddresses`.
- `HostsData`: `getHostsData` and `buildHosts`.
- `HostsPatch`: the line ending, the block, the patch decision and `hostsUpdate`.
- `GlobalUtil`: the helpers.

The patch decision is modelled twice. `PlanAsWritten` follows the source, and
`HostsUpdate` uses it. `PlanPatch` is the corrected decision, with its properties proved
beside it (see Findings).

## Model

| member | source | states |
|---|---|---|
| Outcomes.FulfilledValues | src/assets/script/hosts.ts:35-36 | no more values than results; the list is empty exactly when every result was rejected |
| Outcomes.FulfilledIndices | src/assets/script/hosts.ts:35-36 | the positions of the fulfilled results: each is in range and its result is fulfilled |
| Outcomes.FulfilledIndicesIncreasing | src/assets/script/hosts.ts:35-36 | the positions strictly increase, so input order is kept |
| Outcomes.FulfilledPosition | src/assets/script/hosts.ts:35-36 | every fulfilled result's position is listed, and where |
| Outcomes.FulfilledIndicesComplete | src/assets/script/hosts.ts:35-36 | every fulfilled result's position is listed |
| Outcomes.FulfilledValuesAt | src/assets/script/hosts.ts:35-36 | the `j`-th kept value is the value of the result at the `j`-th listed position: the filter keeps the fulfilled values in input order |
| Outcomes.FulfilledValuesMembers | src/assets/script/hosts.ts:35-36 | every kept value comes from a fulfilled result, and no fulfilled result's value is dropped |
| Selection.BelowOrder | src/assets/script/hosts.ts:37 | `<` on latencies (Infinity included) is irreflexive, transitive and total on distinct values |
| Selection.ReduceMinIsLastFastest | src/assets/script/hosts.ts:37 | the reduce returns a candidate no other beats, and every later candidate is strictly slower: the last of the fastest |
| Selection.GetOptimalIp | src/assets/script/hosts.ts:21-38 | a single address is returned without probing; the only failure is the empty reduce's TypeError |
| Selection.GetOptimalIpFails | src/assets/script/hosts.ts:29-37 | with zero or several addresses the call fails exactly when every probe fails |
| Selection.GetOptimalIpFastest | src/assets/script/hosts.ts:35-37 | a successful result is the address of the last of the fastest reachable candidates |
| Selection.GetOptimalIpInInputOrder | src/assets/script/hosts.ts:29-37 | in terms of the addresses: the winner at position `k` was probed successfully, no reachable address is faster, and every reachable address after `k` is strictly slower, so ties go to the later address |
| Selection.GetOptimalIpProbed | src/assets/script/hosts.ts:29-37 | the winner is one of the given addresses and its probe succeeded |
| Selection.AllNaNPicksLast | src/assets/script/hosts.ts:31-37 | when every reachable probe reports NaN, the last reachable address wins |
| Selection.LookupAttemptShort | src/assets/script/hosts.ts:73-80 | a successful attempt yields an address of at most 15 characters, so it fits the 20-column field of a hosts line |
| Selection.LookupAttemptMeans | src/assets/script/hosts.ts:73-80 | a failed fetch is passed on; a page without addresses fails with `host + 'ip not found!'`; otherwise the extracted list, already duplicate-free, goes to getOptimalIp |
| Selection.GetIPAddresses | src/assets/script/hosts.ts:72-82 | one to four attempts; the result is the first success or the fourth failure, and every earlier attempt failed |
| IpScan.GroupOkChars | src/assets/script/hosts.ts:55-57 | a whole group of either pattern is a non-empty run of the group's characters |
| IpScan.OctetAlternativeMeans | src/assets/script/hosts.ts:55 | the octet alternatives `25[0-5]`, `2[0-4]\d`, `[0-1]?\d{1,2}` accept exactly the 1-3 digit numerals of value at most 255, leading zeros allowed |
| IpScan.ScanMeans | src/assets/script/hosts.ts:55-57 | where no group can run on past `e`, the group scanner stops at `e` exactly when the text from `i` to `e` is n whole groups joined by the separator |
| IpScan.ValidateIPMeans | src/assets/script/hosts.ts:53-66 | validateIP answers IPv4 exactly on four dot-separated octets of at most 255, and IPv6 exactly on eight colon-separated groups of 1-4 hex digits |
| IpScan.IPv4NotIPv6 | src/assets/script/hosts.ts:59-64 | no text is both, so trying IPv4 first decides nothing |
| IpScan.ValidatedChars | src/assets/script/hosts.ts:53-66 | an accepted address holds only hex digits, dots and colons |
| IpScan.TokenAtMeans | src/assets/script/hosts.ts:47 | the token scanner ends at `e` exactly when a word-bounded dotted quad of 1-3 digit groups spans from `i` to `e` |
| IpScan.TokensAreQuads | src/assets/script/hosts.ts:47-48 | every global match is a dotted quad of 1-3 digit groups |
| IpScan.TokensEmpty | src/assets/script/hosts.ts:48 | the match list is empty exactly when no position admits a match |
| IpScan.DivAtMeans | src/assets/script/hosts.ts:41 | the region scanner at `i` returns the group `(b, c)` exactly when `<div` sits at `i`, the tag closes with its first `>` at `b - 1` with the id inside it, and `</div>` first occurs at `c` |
| IpScan.FirstDiv | src/assets/script/hosts.ts:41-42 | the leftmost position where the region pattern matches, or none anywhere |
| IpScan.Dedupe | src/assets/script/hosts.ts:49 | the same members as the input, each once |
| IpScan.DedupeOrder | src/assets/script/hosts.ts:49 | the distinct values come out in the order of their first occurrence |
| IpScan.DedupeKeeps | src/assets/script/hosts.ts:76 | a duplicate-free list is left unchanged, so the second `new Set` in getIPAddresses changes nothing |
| IpScan.AnswerRegion | src/assets/script/hosts.ts:41-45 | no region is found when the pattern matches nowhere |
| IpScan.ExtractIPAddresses | src/assets/script/hosts.ts:40-51 | the result has no duplicates, and it is `[]` when there is no answer region |
| IpScan.ExtractedAreQuads | src/assets/script/hosts.ts:47-49 | every extracted address is a dotted quad of 1-3 digit groups |
| IpScan.ExtractedAreShort | src/assets/script/hosts.ts:47-49 | every extracted address has at most 15 characters |
| IpScan.ExtractFromFirstRegion | src/assets/script/hosts.ts:41-49 | the addresses are the tokens of the leftmost answer region, each kept once, in order when they were distinct already |
| IpScan.QuadToken | src/assets/script/hosts.ts:47 | any four 1-3 digit groups joined by dots form a token: octet values are not checked at extraction |
| IpScan.QuadIPv4 | src/assets/script/hosts.ts:55 | such a quad passes validateIP as IPv4 exactly when each group's value is at most 255 |
| HostsData.Kept | src/assets/script/hosts.ts:88-102 | the kept entries are no more than the host names |
| HostsData.GetHostsData | src/assets/script/hosts.ts:84-105 | the loop keeps exactly the fulfilled lookups that validateIP classifies as IPv4 or IPv6, paired with their host names |
| HostsData.AcceptedIndices | src/assets/script/hosts.ts:88-91 | every listed index is in range and its lookup is accepted |
| HostsData.AcceptedIndicesIncreasing | src/assets/script/hosts.ts:88 | the indices strictly increase |
| HostsData.AcceptedIndicesComplete | src/assets/script/hosts.ts:88-91 | every accepted lookup's index is listed |
| HostsData.KeptAtIndices | src/assets/script/hosts.ts:88-102 | entry j is host name and address of the j-th accepted lookup: nothing reordered, renamed or invented |
| HostsData.KeptAreAddresses | src/assets/script/hosts.ts:90-91 | every kept address passes validateIP, so it holds only hex digits, dots and colons |
| HostsData.HostLineColumns | src/assets/script/hosts.ts:146 | an address of at most 20 characters is padded with blanks to 20 columns, and the name starts at column 20 |
| HostsData.HostLineNoTerminator | src/assets/script/hosts.ts:146 | a rendered line holds no terminator unless the entry does |
| HostsData.BuildHostsLines | src/assets/script/hosts.ts:145-147 | joined with any line terminator, the block splits back into exactly the rendered lines |
| HostsData.BuildHostsAvoids | src/assets/script/hosts.ts:145-147 | a character other than a blank that no entry and no separator holds does not appear in the block |
| HostsPatch.MarkerFacts | src/config/hosts.config.ts:57-59 | the two markers and the `# Update time` label each start with their only `#` and hold no line terminator, and the label differs from both markers at its second character |
| HostsPatch.LineEnding | src/assets/script/hosts.ts:157-158 | the line ending is `\n`, `\r\n` or `\r`; it is the first terminator, with `\r\n` preferred, and `\n` when there is none |
| HostsPatch.LineEndingAppend | src/assets/script/hosts.ts:157 | text appended after the first terminator does not change the line ending |
| HostsPatch.LineEndingAfter | src/assets/script/hosts.ts:157-158 | after a terminator-free stretch, the line ending is the terminator that follows |
| HostsPatch.SpanFrom | src/assets/script/hosts.ts:171 | the lazy `start[\s\S]*?end` match: the first start marker at or after `from` and the first end marker after it, or no such pair anywhere |
| HostsPatch.FirstSpan | src/assets/script/hosts.ts:171 | the leftmost lazy match in the whole text, or a proof that there is none |
| HostsPatch.Replace | src/assets/script/hosts.ts:171 | only the first span is replaced and the text around it is kept; without a span the text is unchanged |
| HostsPatch.LabelCapture | src/assets/script/hosts.ts:163-165 | the captured text runs up to the last `# Update time` that fits in the range; no capture means there is no label there |
| HostsPatch.PatchIdempotent | src/assets/script/hosts.ts:157-177 | for any framing words, a rewrite keeps the line ending, and a second run with the same entries finds its own block up to date |
| HostsPatch.PlanIdempotent | src/assets/script/hosts.ts:149-178 | with the real markers and entries free of `#`, the text the corrected patch writes is up to date on the next run, whatever its time stamp |
| HostsPatch.KeptHashFree | src/assets/script/hosts.ts:88-102 | entries kept from host names without `#` contain no `#` |
| HostsPatch.PlanAsWrittenNeverSettles | src/assets/script/hosts.ts:163-177 | a file holding two blocks with the same entries is rewritten by the source on every run, into two blocks again, while the corrected patch leaves it alone |
| HostsPatch.PlanAsWrittenFromBare | src/assets/script/hosts.ts:163-177 | from a file holding only the two markers, the source appends a block and then replaces the bare markers, which leaves the two-block file |
| HostsPatch.PlanPatchFromBare | src/assets/script/hosts.ts:162-177 | from the same file the corrected patch replaces the bare markers once and then stops |
| HostsPatch.PlansAgreeWithoutMarker | src/assets/script/hosts.ts:163-177 | without a start marker both patches append the block after the text's own line ending |
| HostsPatch.PlansAgreeOnOneBlock | src/assets/script/hosts.ts:163-171 | a file holding one block in its own line ending, with no `#` after it, gets the same plan from both patches |
| HostsPatch.AsWrittenOneBlock | src/assets/script/hosts.ts:163-171 | for any framing words, the source's decision on a text holding one block with no `#` after it is up to date or a rewrite of just that block |
| HostsPatch.AsWrittenPlacedUpToDate | src/assets/script/hosts.ts:163-170 | the source finds a block it wrote itself up to date, whatever the new time stamp |
| HostsPatch.PlanAsWrittenSettlesWithoutMarker | src/assets/script/hosts.ts:163-177 | without a start marker the source appends a block, and the next run over that text is up to date |
| HostsPatch.PlanAsWrittenSettlesOnOneBlock | src/assets/script/hosts.ts:163-177 | on a text holding one block in its own line ending with no `#` after it, the source keeps the text or rewrites that block alone, and the next run is up to date |
| HostsPatch.HostsUpdate | src/assets/script/hosts.ts:149-190 | with the source's own decision `PlanAsWritten`: the outcome and the side effects of every path: backup rejected, backup false, read rejected, up to date, write rejected, flush rejected, success |
| HostsPatch.UpdateSettles | src/assets/script/hosts.ts:149-178 | the corrected half: with `PlanPatch`, a second run over the text the first run wrote, with the same lookups, writes nothing |
| GlobalUtil.Repeat | src/utils/globalUtil.ts:53 | length `n * |s|`, made only of characters of `s` |
| GlobalUtil.RepeatCopies | src/utils/globalUtil.ts:53 | the result is `n` copies of `s`: the `i`-th stretch of `|s|` characters is `s` itself |
| GlobalUtil.LJust | src/utils/globalUtil.ts:51-54 | the string comes first and the rest is fill characters; the length is `|str| + max(0, total - |str|) * |fillChar|`, which is `max(total, |str|)` with a one-character fill; a string already long enough is returned as it is |
| GlobalUtil.LJustTrimEnd | src/utils/globalUtil.ts:51-54 | blank padding is undone by trimming the end |
| GlobalUtil.SplitLines | src/utils/globalUtil.ts:72-74 | at least one piece, and no piece holds a terminator |
| GlobalUtil.SplitLinesCrLf | src/utils/globalUtil.ts:73 | `\r\n` is one separator, not two |
| GlobalUtil.SplitLinesJoin | src/utils/globalUtil.ts:72-74 | for text using `\n` only, joining the lines with `\n` gives the text back |
| GlobalUtil.JoinSplitLines | src/utils/globalUtil.ts:72-74 | lines without terminators, joined by any one terminator, split back into the same lines |
| GlobalUtil.Dasherize | src/utils/globalUtil.ts:67 | one character more per capital, and every capital of the result has a `-` right before it |
| GlobalUtil.DasherizeAppend | src/utils/globalUtil.ts:67 | the global replace works character by character: it distributes over concatenation |
| GlobalUtil.DasherizeStrip | src/utils/globalUtil.ts:67 | only dashes are added: with every `-` removed, the result is the input with its own dashes removed, and a name without `-` comes back unchanged |
| GlobalUtil.LowerAll | src/utils/globalUtil.ts:68 | same length; no capital A-Z is left; each capital becomes its small letter and every other character is kept |
| GlobalUtil.LowerAllIdempotent | src/utils/globalUtil.ts:68 | lower-casing twice is lower-casing once |
| GlobalUtil.TransferCamel | src/utils/globalUtil.ts:65-70 | the result holds no capital, and its length is the input's plus one per capital, minus the dropped first character |
| GlobalUtil.TransferCamelRoundTrip | src/utils/globalUtil.ts:65-70 | on a Pascal-case name without `-`, converting back to Pascal case restores the name |
| GlobalUtil.TransferCamelDropsFirst | src/utils/globalUtil.ts:69 | on a name that does not start with a capital, the first character is lost |
| GlobalUtil.RetrySync | src/utils/globalUtil.ts:27-48 | one call plus at most `retries` more (one call when `retries <= 0`); the result is the last call's; every earlier call failed; a failure is returned only once the budget is spent |
| GlobalUtil.Merge | src/utils/globalUtil.ts:4-25 | the only error is the TypeError of writing a property of a primitive |
| GlobalUtil.MergeChild | src/utils/globalUtil.ts:9-21 | the only error is the TypeError of writing a property of a primitive |
| GlobalUtil.TouchedIsLowerKeys | src/utils/globalUtil.ts:6-8 | the keys acted on are exactly the source's own keys that are already lower-case |
| GlobalUtil.MergeMeans | src/utils/globalUtil.ts:4-25 | key by key: other target properties are kept; primitives overwrite; objects merge into the truthy child or a fresh `[]`/`{}`; with no lower-case source key the target is returned unchanged |
| GlobalUtil.MergeDeep | src/utils/globalUtil.ts:4-25 | the loop, over the source keys in any order, gives the merge |
| GlobalUtil.MergeIdempotent | src/utils/globalUtil.ts:4-25 | merging the same source a second time changes nothing |
| GlobalUtil.MergeIgnoresUpperCaseKey | src/utils/globalUtil.ts:6-8 | a source key that is not lower-case has no effect on the merge |

## Left out

- The network, ping, timers, the filesystem, the shell, the clock and logging are not modelled directly.
  - Their outcomes are parameters: the lookup pages, the probe outcomes, the backup, read, write and flush outcomes, and the time stamp.
  - Logging is dropped.
  - The `delay` of retrySync has no observable effect in the model.
- Latencies are reals, with NaN read as Infinity. IEEE floating point is not modelled.
- Case mapping (`toLowerCase`, `toLocaleLowerCase`) is ASCII-only.
- `$` substitution patterns in the replacement string of `String.prototype.replace` are not modelled. The block the program writes holds no `$` unless a host name or time stamp does.
- GlobalUtil.MergeDeep works on values, not on shared objects:
  - the in-place update and aliasing of `target` are not captured;
  - neither are the properties already written when a TypeError interrupts the loop;
  - numbers are integers;
  - reading a property of `null` or `undefined` is modelled as the same TypeError as writing one.
- GlobalUtil.MergeDeep and GlobalUtil.Merge read only a value's own properties. Inherited keys such as `constructor` and `__proto__` are not modelled. Neither are a string's `length` and indices: every property of a primitive reads as `undefined`. Writing a property of a primitive is the TypeError of strict mode.
- Probe and lookup outcomes are given with the same length as the lists they belong to, as `Promise.allSettled` guarantees.
- HostsPatch.HostsUpdate settles on the next run only where the source does: with no start marker, or with one block and no `#` after it. From other texts the source can rewrite on every run (see Findings).
- HostsPatch.HostsUpdate takes the `cmd` wrapper from src/utils/ShellScript.ts:6-18 as resolving with an object, which is always truthy, or rejecting. So the `return false` after a failed flush cannot happen.
- HostsPatch.HostsUpdate models a rejected write as writing nothing.
- HostsPatch.PlanIdempotent, HostsPatch.PatchIdempotent and HostsPatch.UpdateSettles require a file that holds a complete span or no start marker at all. A start marker with no end marker after it first gets a block appended, and the next run rewrites once more.
- HostsPatch.PlanIdempotent, HostsPatch.PatchIdempotent and HostsPatch.UpdateSettles require host names (for PatchIdempotent, the entry block) and the time stamp to be free of `#`. A `#` inside the data could read as part of the `# Update time` label.
- `mixedString`, `hostsRestore`, `main`, the UI scripts and the rest of the repository are not part of this model.

## Findings

| source | as written | input that shows it | evidently intended | confidence | as-written member | corrected member |
|---|---|---|---|---|---|---|
| src/assets/script/hosts.ts:163-171 | The up-to-date test uses a greedy match from the first start marker to the last `# Update time` before the last end marker, and needs that label. The rewrite replaces the first lazy start…end span. When the two disagree, a run rewrites the file without ever making it current. | a hosts text holding only `#------ Quicken Hosts Start ------\n#------ Quicken Hosts End ------\n`: the first run appends a block; the second replaces the bare markers and leaves two blocks; from then on every run rewrites | a second run with the same entries writes nothing | not executed | HostsPatch.PlanAsWrittenFromBare | HostsPatch.PlanPatchFromBare |
