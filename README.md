# polkadot-staking-rewards: the decision and lookup rules of `index.js`

The tool builds, for each configured Polkadot account, a report of its staking
rewards. Around the network calls sit a few deterministic rules, and this
project models them in Dafny and proves their properties:

- **Pagination and filtering** (`rewards.dfy`). The reward/slash listing is
  read page by page: pages 0, 1, 2, … are requested, each with 100 rows, until
  a page comes back empty. The pages read before it are concatenated in order.
  An event is kept when its amount is positive and its block timestamp lies
  strictly between the configured `from` and `to`. Each kept event becomes one
  report row, holding the aligned price and volume and the free and bonded
  amounts at its block. The listing is an oracle from page index to a list of
  events, and the chain state is an oracle from block number to a snapshot.
- **Market-data alignment `getDayData`** (`market_data.dfy`). Given a series of
  `[timestamp_ms, value]` points and a time in seconds, the lookup returns 0
  when the first point is already later than the time. Otherwise it returns the
  value of the first point, in list order, that is strictly later than the
  time. It returns `undefined` when no point is later. Times are compared as
  `timestamp_ms > time * 1000` on integers.
- **`hex2a`** (`hex_label.dfy`, `uri_decode.dfy`). The function cuts a string
  with `/.{1,2}/g`, joins the pieces as `%XY%XY…` and hands them to
  `decodeURIComponent`. That built-in is modelled after the Decode operation of
  ECMA-262 (section 19.2.6.1 of ECMAScript 2023), including its UTF-8 validity
  rules.
- **Identity resolution** (`identity.dfy`). The override scan over configured
  accounts, where the last match wins. The direct-then-parent (`superOf`)
  lookup, which falls back to the raw address. The `0x` rule for display names
  and sub-labels. The judgement loop, where the last judgement wins. The label
  shown for a nomination target: the override, the address, `name` or
  `name / sub`. The chain registry is a pair of maps.
- **File-name abbreviation** (`abbreviation.dfy`). Tokens between spaces that
  are whole numbers are kept; any other token is cut to its first character.
- `js.dfy` holds the JavaScript notions the rest needs: `undefined`/`null` as
  `None`, a thrown `TypeError`/`URIError` as `Err`, truthiness of strings,
  template-literal rendering and `Array.prototype.join`.

Three rules of the code are easy to misread:

- `getDayData` returns the value of the first point strictly later than the
  query time, so a point at the query time itself is skipped
  (index.js:219-227).
- Both filter bounds are strict: an event at `from` or at `to` is dropped
  (index.js:41).
- The last judgement alone decides `verified` (index.js:125-128).
  `Identity.VerdictIsLastNotAny` gives a list that holds a good judgement but
  whose verdict is false.

## Model

| member | source | states |
|---|---|---|
| MarketData.Scan | index.js:219-228 | the scan yields `undefined` exactly when no point is later than the query, and otherwise the value of the first later point in list order |
| MarketData.DayValue | index.js:212-229 | an empty series throws a TypeError, and nothing else throws; 0 when the first point is later than the query; `undefined` exactly when no point is later; otherwise the first later point's value |
| MarketData.GetDayData | index.js:212-229 | the guard and early-returning loop compute exactly `DayValue`, with a point equal to the query time skipped |
| MarketData.DayValueExamples | index.js:214-227 | on points at 1000 ms and 2000 ms, second 0 gives 0, second 1 gives the value after it (not the one at it), second 2 gives `undefined` |
| Rewards.FetchAll | index.js:12-35 | pages 0, 1, 2, … are requested in order with row 100 and the address; the last page requested is the first empty one; the result is all earlier pages concatenated in order |
| Rewards.PagedFetch | index.js:12-35 | against a listing of N items served in pages of a fixed size, the loop stops after ceil(N / size) non-empty pages and returns exactly the N items |
| Rewards.Keep | index.js:41 | an event whose timestamp equals `from` or `to` is dropped; a kept event has a positive amount and lies in a window wider than one second |
| Rewards.Filter | index.js:38-42 | every kept event has a positive amount and a timestamp strictly inside (from, to), and no more events are kept than were given |
| Rewards.FilterCounts | index.js:38-42 | each qualifying event is kept exactly as often as it occurs in the input, and no other event is kept |
| Rewards.FilterAppend | index.js:32-42 | filtering the concatenation of two lists is the concatenation of their filterings, so kept events keep their relative order |
| Rewards.FilterConcat | index.js:32-42 | the kept events of n + 1 pages are those of the first n pages followed by those of page n |
| Rewards.GetRewardData | index.js:9-63 | the pagination contract; the result throws (TypeError) exactly when some event is kept and a market series is empty; otherwise row i holds the i-th kept event, the `DayValue` price and volume at its timestamp, and the free and bonded amounts at its block |
| UriDecode.Decode | index.js:136 | `decodeURIComponent` returns a string no longer than its argument, and a string without `%` unchanged |
| UriDecode.Utf8Decode | index.js:136 | a decoded string has no more characters than there were bytes; bytes that are all below 0x80 decode one character per byte, each with that byte's value |
| UriDecode.DecodeSequence | index.js:136 | a multi-byte UTF-8 sequence decodes only when its trailing bytes are continuation bytes and its code point is not overlong, and then to that code point |
| UriDecode.DecodeEscaped | index.js:136 | `decodeURIComponent` of the escapes `%XY…` of whole hex pairs is strict UTF-8 decoding of the bytes they write |
| UriDecode.DecodeBadTail | index.js:136 | complete escapes followed by a `%` that does not start a complete escape make `decodeURIComponent` throw |
| UriDecode.Utf8RoundTrip | index.js:136 | UTF-8 decoding of the UTF-8 encoding of a string gives the string back |
| HexLabel.Chunks | index.js:136 | `/.{1,2}/g` finds no match exactly when the string holds nothing but line terminators |
| HexLabel.ChunkLengths | index.js:136 | every match of `/.{1,2}/g` is one or two characters long |
| HexLabel.ChunksSpell | index.js:136 | the matches of `/.{1,2}/g`, read in order, spell out the input without its line terminators |
| HexLabel.PercentJoinedGlued | index.js:136 | on a non-empty string without line terminators, `'%' + chunks.join('%')` puts `%` before every consecutive pair, the last piece being a single character when the length is odd |
| HexLabel.PercentJoinedWellFormed | index.js:136 | for whole hex pairs the string handed to `decodeURIComponent` is exactly the escapes `%XY%XY…` |
| HexLabel.Hex2a | index.js:135-137 | `hex2a` throws a TypeError exactly when the string holds nothing but line terminators (`match` returns null); every other failure is a URIError |
| HexLabel.Hex2aCharacterization | index.js:135-137 | on a string without line terminators, `hex2a` throws a TypeError on the empty string; it throws a URIError on an odd length or on any character that is not a hex digit; on whole hex pairs it returns the UTF-8 decoding of their bytes, or throws a URIError when that decoding fails |
| HexLabel.Hex2aRoundTrip | index.js:135-137 | `hex2a` of the hex encoding of a non-empty string's UTF-8 bytes returns the string |
| HexLabel.Hex2aExample | index.js:135-137 | `hex2a("414243")` is "ABC" |
| Identity.DecodeLabel | index.js:115-118 | a raw label that is undefined, empty or lacks the `0x` prefix is kept unchanged; only a `0x` label is changed, and then into a defined string |
| Identity.DecodeLabelRoundTrip | index.js:130-132 | `0x` followed by the hex of a non-empty label's UTF-8 bytes decodes to the label; `0x` alone throws a TypeError |
| Identity.DecodeLabelExample | index.js:115-118 | the sub-label `0x414243` decodes to "ABC" |
| Identity.Verdict | index.js:124-128 | `verified` is undefined exactly when there is no judgement; true only when some judgement is reasonable or known good; false only when some judgement is neither |
| Identity.ScanJudgements | index.js:124-128 | the loop's final `verified` is `undefined` for no judgements and otherwise whether the last judgement is reasonable or known good |
| Identity.VerdictIsLastNotAny | index.js:124-128 | a true verdict implies some good judgement; no judgement leaves `verified` undefined; a known-good judgement followed by an erroneous one gives false |
| Identity.GetIdentity | index.js:107-133 | an address with neither a registration nor a parent is its own name, unverified, without sub-label; a registered address throws exactly when its display name fails to decode, and otherwise carries its decoded display name, its own judgement verdict and no sub-label; a sub-account throws exactly when its sub-label or its parent's display name fails to decode or the parent is unregistered, and otherwise carries the parent's decoded display name, the parent's verdict and its own decoded sub-label |
| Identity.LastOverride | index.js:81-85 | no override exactly when no configured account has the target's address; otherwise the name of the last such account |
| Identity.ScanOverrides | index.js:81-85 | the overwriting loop computes `LastOverride` |
| Identity.TargetLabel | index.js:81-93 | a truthy override is the label; otherwise the label fails exactly when the chain lookup throws |
| Identity.OverrideShortCircuits | index.js:86-92 | a non-empty override name is the label whatever the registry holds |
| Identity.UnregisteredLabel | index.js:86-92 | with no truthy override, no registration and no parent link, the label is the address itself |
| Identity.SubIdentityLabel | index.js:86-92 | without a truthy override, a sub-account of a registered parent with a non-empty decoded sub-label is shown as the parent's decoded display name, then ` / `, then the sub-label (the address when the parent's name is the address) |
| Identity.ParentNameLabel | index.js:86-92 | without a truthy override, a sub-account of a registered parent whose sub-label is empty or undefined is shown by the parent's decoded display name alone (the address when the two coincide) |
| Identity.DirectIdentityLabel | index.js:86-92 | a registered target without a truthy override is shown by its decoded display name alone (the address when the two coincide) |
| Identity.ResolveTargets | index.js:79-100 | resolution succeeds exactly when every target's label does; entry i then holds target i and its label, in target order |
| Identity.NominationData | index.js:67-105 | no nominations give no targets and era 0; otherwise the submission era and one entry per target, in order, holding the target's address and its label, failing exactly when a target's resolution fails |
| Abbreviation.Split | index.js:143 | `split(' ')` yields at least one piece, no piece contains a space, and joining the pieces with spaces gives the input back |
| Abbreviation.AbbreviateToken | index.js:143 | a whole number (optional minus sign, then decimal digits) is kept; any other token shrinks to its first character, or to nothing when it is empty |
| Abbreviation.SplitJoin | index.js:143 | splitting space-free tokens joined by spaces gives the tokens back |
| Abbreviation.NameAbbreviation | index.js:143 | a name without spaces abbreviates as the single token it is |
| Abbreviation.NameAbbreviationAppend | index.js:143 | the abbreviation of `a + " " + b` is the abbreviation of `a` followed by that of `b` |
| Abbreviation.NameAbbreviationOfTokens | index.js:143 | the abbreviation of space-free tokens joined by spaces is the concatenation of the tokens' abbreviations |
| Abbreviation.NameAbbreviationExample | index.js:142-143 | "Big Bag Holder Stash 223" abbreviates to "BBHS223" |

## Left out

- The HTTP requests to the reward listing and the market-data service (index.js:18-27, 188-209) are not modelled. They are oracle inputs: a function from page index to events, and two point series.
- The Polkadot RPC client is replaced by oracles: the block-hash lookup and the balance and ledger queries by a function from block number to a snapshot, the identity queries by two maps. A ledger query that returns nothing makes `.active` throw in the source; the snapshot oracle always answers, so this failure is not modelled.
- Amounts stay integer smallest-unit values. The `parseInt`, `Number` and `/ Math.pow(10,10)` scaling (floating point) is not modelled, and the listing's string amounts are taken as already parsed.
- Date parsing of the configured range and `toLocaleDateString` depend on the runtime and locale. `from` and `to` are whole seconds given as inputs.
- The CSV text, file writes, HYPERLINK strings (including `identityLink`), the role capitalisation and logging are output only and are not modelled.
- `main` and the `Promise.all` fan-out are not modelled. Results are kept in list order. When several lookups throw, the model reports the first in list order; the source reports whichever rejects first in time.
- Rewards.FetchAll: requires that some page is empty; without one the source loops forever, which a terminating method cannot express.
- A reply whose `data.list` is missing makes the source throw; the page oracle always returns a list, so this is not modelled.
- HexLabel.Hex2aCharacterization: covers only strings without line terminators. `Chunks` models how `/.{1,2}/g` skips them, so `Hex2a` is defined on every string, but no lemma says what `hex2a` returns when a line terminator re-pairs the digits (as in `"4\n142"`).
- JavaScript strings are UTF-16. The model's characters are Unicode scalar values, so a character outside the Basic Multilingual Plane is one character here rather than two code units.
- `MarketData.GetDayData` drops `prev`, which the source assigns but never reads.
- The registry's display and sub fields are taken as an optional `Raw` string. Other encodings of those fields read as `undefined`.
