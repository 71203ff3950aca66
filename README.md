# dispatch: the topic-routing hub in Dafny

This project models the routing core of the `dispatch` publish/subscribe hub. The hub keeps a
registry from message patterns of the form `<module>:<signal>` to lists of subscribers.

- `subscribe(messages, sub)` goes through the messages in order, checking each against the
  grammar `(\w+|\w*\*):(\w+|\w*\*)`. It adds `sub` once under each message until the first
  malformed one, where it throws: the messages before it stay registered, the ones after it are
  never checked, and nothing is returned. When every message passes, it returns `sub`.
- `emit(message, payload)` refuses a message holding `*`. Otherwise, in the behaviour the code
  evidently intends and the model's `EmitSpec` follows, it finds the registered patterns that
  match the message and gathers their subscribers in key order. It drops repeated identities
  and delivers `(message, payload)` to each remaining subscriber. As written, `emit` never gets
  that far: it throws at the `unique` call before delivering anything (see "## Findings").
- `unsubscribe` does nothing.

Two anchored star matchers decide which patterns match. In `matches_pattern`
(src/helpers.js) a `*` stands for `\w*`. In `wildcard.toRegex` (src/utils/wildcard.js) a `*`
stands for `[\w:\-]*`. De-duplication is `unique` (src/utils/unique.js), which keeps the first
occurrence of each identity.

Modules:

- `Glob` (glob.dfy) holds the star matcher both regular expressions share. `GlobMatch(m, p, cls)`
  is a recursive predicate whose star class is `WordRun` (`\w`) or `WordColonDashRun`
  (`[\w:\-]`). The partner it is checked against is `Expand`, which fills each star with a run
  of admitted characters.
- `Helpers` (helpers.dfy) is `matches_pattern` with the properties its tests pin down.
- `Wildcard` (wildcard.dfy) is `toRegex`, modelled as "the returned expression matches this
  string".
- `Unique` (unique.dfy) holds the loop of `unique` as a method. The method is proved equal to
  the function `Dedup`, and `Dedup`'s properties are proved as lemmas.
- `Hub` (hub.dfy) holds the subscription grammar, the registry as a value (`Registry`), and the
  specification functions `SubscribeSpec` and `EmitSpec`. It also holds the class `Hub`.
  - The class's fields are the key order of `_subscribers` and the map itself.
  - `Subscribe` changes them in place, one loop turn at a time.
  - `Emit` runs the gather loop and `unique`, then a delivery loop.
  - Each method is proved to compute exactly what its specification function says.
- `HubScenarios` (scenarios.dfy) works the emission scenarios of test/hub.js out on the
  specification.

Subscribers are an opaque type `S` compared with `==`, which stands for JavaScript's `===` on
objects. Payloads are an opaque type `P`. A call `receive(message, payload)` is modelled as a
`Delivery(subscriber, message, payload)` record, and `emit` returns the list of these records
in call order. A thrown error is a `Failure` value.

Where a reader might expect more of a hub than the code does, the model follows the code:

- Subscription is not all-or-nothing. The format check runs inside the registration loop, so
  when the k-th message is malformed, messages 0..k-1 stay registered (`SubscribeSpec`,
  `SubscribeRegisters`).
- `unsubscribe` removes nothing: the code's body is empty, and so is the model's.
- There is no caching of payloads and no asynchronous delivery or delivery in rounds. The code
  delivers synchronously, in one loop.
- The doc-comment of `toRegex` says a star stands for `\w*`. The code uses `[\w:\-]*`, and so
  does the model.

## Model

| member | source | states |
|---|---|---|
| Glob.IsWordChar | src/helpers.js:14 | `\w` without the `u` flag, as used at src/helpers.js:14 and src/hub.js:93: exactly the ASCII letters, digits and `_`; in particular never `:`, `-` or `*` |
| Glob.StarClass.Admits | src/utils/wildcard.js:12 | what one `*` may stand for: `WordRun` admits exactly `\w` (src/helpers.js:14), `WordColonDashRun` exactly `\w`, `:` and `-` (src/utils/wildcard.js:12); neither admits `*` |
| Glob.GlobMatch | src/helpers.js:14 | the anchored match both expressions perform: each `*` consumes a run of admitted characters and every other character is compared literally, so a matched string is never shorter than the pattern's non-star characters |
| Glob.StarCount | src/helpers.js:14 | the number of `*` the global replace substitutes, at most the pattern's length |
| Glob.Expand | src/helpers.js:14 | the pattern with its i-th `*` replaced by the i-th fill, the substitution the global replace performs; never shorter than the pattern's non-star characters |
| Glob.GlobMatchIffExpansion | src/helpers.js:14 | a string matches a star pattern exactly when it equals the pattern with each `*` replaced by some run of admitted characters, anchored at both ends (both directions) |
| Glob.MatchHasExpansion | src/helpers.js:14 | every match yields fills, one admitted run per star, whose expansion is the string |
| Glob.ExpansionMatches | src/utils/wildcard.js:12 | every expansion of the pattern by admitted runs is matched |
| Glob.StarFreeMatchesExactly | src/helpers.js:14 | a pattern with no star matches exactly the identical string, so matching is case-sensitive and anchored |
| Glob.StarCountZero | src/helpers.js:14 | a pattern has no star exactly when it holds no `*` character |
| Glob.LiteralMatchesExactly | src/utils/wildcard.js:12 | a `*`-free pattern matches a string iff the two are equal |
| Glob.MatchedCharacters | src/helpers.js:14 | every character of a matched string is admitted by the star class or is a non-star character of the pattern |
| Glob.StarInMessageMatchesNothing | src/helpers.js:14 | a string holding `*` matches no pattern under either star class |
| Glob.ConcatMatch | src/utils/wildcard.js:12 | matches compose: a match of p1 followed by a match of p2 matches p1 + p2 |
| Glob.RunMatchesStar | src/helpers.js:14 | a lone `*` matches every admitted run, including the empty one |
| Glob.LiteralMatchesItself | src/helpers.js:14 | a string without `*` matches itself as a pattern |
| Glob.FillOneStar | src/helpers.js:14 | literal text, then an admitted run in place of a star, then literal text, matches the pattern |
| Glob.FillTwoStars | src/helpers.js:14 | the same for a pattern with two stars |
| Helpers.Matches | src/helpers.js:12-17 | `matches_pattern(message, pattern)` holds exactly when the message is the pattern with each `*` filled by a run of word characters |
| Helpers.StarColonStarMatchesWordPairs | test/helpers.js:13-22 | `*:*` matches m iff m splits at a colon into two runs of word characters (both directions) |
| Helpers.StarColonStarSplits | src/helpers.js:14 | a match of `*:*` yields such a split |
| Helpers.StarColonStarJoins | src/helpers.js:14 | such a split yields a match of `*:*` |
| Helpers.StarColonStarExamples | test/helpers.js:13-22 | `*:*` matches `menu:open` and `store:updated` |
| Helpers.SpaceIsNotMatched | test/helpers.js:6-11 | `*:*` does not match `menu: click` |
| Helpers.ModuleSuffixWildcardExamples | test/helpers.js:27-28 | `*:close` and `me*:close` match `menu:close` |
| Helpers.SignalSuffixWildcardExamples | test/helpers.js:29-30 | `menu:*` and `menu:cl*` match `menu:close` |
| Helpers.BothSuffixWildcardExample | test/helpers.js:31 | `menu*:close*` matches `menu:close` |
| Helpers.ExactMessageExample | test/helpers.js:42-44 | `button:click` matches itself |
| Helpers.WildcardMessageExamples | test/helpers.js:34-40 | `*:click` matches none of `button:click`, `*:click`, `*:*` |
| Helpers.WildcardMessageMatchesNothing | src/helpers.js:14 | a message holding `*` matches no pattern without regex metacharacters |
| Wildcard.ToRegexMatches | src/utils/wildcard.js:11-13 | the expression `toRegex(pattern)` returns accepts s exactly when s is the pattern with each `*` filled by a run of word characters, colons and dashes |
| Wildcard.MatchesImpliesToRegexMatches | src/utils/wildcard.js:12 | whatever `matches_pattern` accepts, `toRegex` accepts (`\w` is contained in `[\w:\-]`) |
| Wildcard.StarSpansColonOnlyInToRegex | src/utils/wildcard.js:12 | the containment is strict: `*` matches `menu:open` under `toRegex` but not under `matches_pattern` |
| Wildcard.ToRegexWithoutStars | test/utils/wildcard.js:22-26 | a pattern with no star matches exactly itself |
| Wildcard.ToRegexIsAnchored | src/utils/wildcard.js:8-12 | text before or after a star-free pattern makes the match fail |
| Wildcard.ExplicitStringExample | test/utils/wildcard.js:22-26 | `hello world` matches itself |
| Wildcard.StarMatchesZeroExample | test/utils/wildcard.js:30-35 | `hello* world` matches `hello world` with the star standing for nothing |
| Wildcard.StarMatchesOneExample | test/utils/wildcard.js:37-42 | `hell* world` matches `hello world` with the star standing for one character |
| Wildcard.StarMatchesSeveralExample | test/utils/wildcard.js:44-49 | `h* world` matches `hello world` with the star standing for several characters |
| Unique.FirstIndex | src/utils/unique.js:12 | the position of the first occurrence of x: it holds x and nothing before it does |
| Unique.Dedup | src/utils/unique.js:11-15 | the result has no duplicates, holds every input element and nothing else, and is no longer than the input |
| Unique.Unique | src/utils/unique.js:6-18 | the loop returns exactly `Dedup` of its input, as a new sequence |
| Unique.DedupKeepsFirstOccurrenceOrder | src/utils/unique.js:12-14 | kept elements appear in the order of their first occurrences in the input |
| Unique.DedupOfDistinct | test/utils/unique.js:6-10 | an input without duplicates comes back unchanged |
| Unique.DistinctOccursOnce | src/utils/unique.js:12-14 | in a duplicate-free sequence each element occurs exactly once |
| Unique.DedupSnoc | src/utils/unique.js:12-14 | proof step: one loop turn: a new element is kept at the end, a repeated one is dropped |
| Unique.DedupKeepsNew | src/utils/unique.js:12-14 | proof step: an element not seen before is appended to the result |
| Unique.DedupDropsSeen | src/utils/unique.js:12-14 | proof step: an element already seen leaves the result as it is |
| Unique.RepeatedNumbersExample | test/utils/unique.js:12-16 | `[1,1,2,3,3,4,5,5]` becomes `[1,2,3,4,5]` |
| Unique.NoDuplicatesExample | test/utils/unique.js:6-10 | `[1,2,3]` comes back unchanged |
| Unique.RepeatedIdentitiesExample | test/utils/unique.js:18-27 | with three distinct identities, `[o1,o2,o3,o2,o1]` becomes `[o1,o2,o3]` |
| Hub.MessageList | src/hub.js:72-78 | a lone string becomes the one-element list of it; the argument is refused exactly when it is neither a string nor an array |
| Hub.IsSegment | src/hub.js:93 | `\w+` or `\w*\*`: a segment never holds a colon |
| Hub.IsMessageFormat | src/hub.js:85-95 | the anchored grammar of two segments around a colon: a message that passes holds exactly one colon, with a non-empty part on each side |
| Hub.FormatIsCharwise | src/hub.js:93 | the grammar, read character by character: one colon with something on both sides, and otherwise word characters, except that a `*` may stand just before the colon or at the end (both directions) |
| Hub.SegmentsAreCharwise | src/hub.js:93 | two segments joined at a colon satisfy the charwise reading |
| Hub.CharwiseAreSegments | src/hub.js:93 | the charwise reading at a colon yields two segments |
| Hub.SegmentsFormMessage | src/hub.js:93 | two segments joined by a colon always form a valid message |
| Hub.StarMustEndSegment | src/hub.js:85-95 | a `*` followed by anything other than the colon makes the message invalid |
| Hub.ColonIsRequired | src/hub.js:93 | a string without a colon is invalid |
| Hub.RejectedMessageExamples | test/hub.js:68-129 | `mod**:signal`, `m*dule:signal`, `module:s*gnal`, `module:s**`, `just a plain string` and `message1` are refused |
| Hub.AcceptedMessageExamples | src/hub.js:93 | `menu:*`, `*:*` and `menu:open` are accepted |
| Hub.ValidPrefixLength | src/hub.js:81-95 | the number of leading messages that pass the check: all of them pass, and the next one, if any, fails |
| Hub.RegistryValid | src/hub.js:14-15 | the invariant of `_subscribers` that registration keeps: keys listed once each and exactly the map's keys, every key well-formed, every list non-empty and free of repeated identities (a definition; its partners are the `...KeepsValid` lemmas) |
| Hub.Register | src/hub.js:97-109 | one loop turn: the key set gains the message and nothing else, and sub is in the message's list afterwards |
| Hub.RegisterEach | src/hub.js:81-110 | the loop over the messages in order: the key set becomes the old keys plus every message processed |
| Hub.RegisterKeepsValid | src/hub.js:97-109 | one registration keeps the registry valid: keys listed once, every key well-formed, lists non-empty and duplicate-free |
| Hub.RegisterEffect | src/hub.js:97-109 | after one registration sub occurs exactly once under the message. A new message gets `[sub]` and is appended to the key order; an existing list gets sub at its end unless it already holds it; every other entry is unchanged |
| Hub.RegisterIsIdempotent | src/hub.js:102-105 | registering the same subscriber under the same message a second time changes nothing |
| Hub.RegisterEachKeepsValid | src/hub.js:81-110 | the registration loop over well-formed messages keeps the registry valid |
| Hub.RegisterEachContains | src/hub.js:81-110 | after the loop every message processed holds sub |
| Hub.RegisterEachLeavesOthers | src/hub.js:81-110 | the loop changes no entry whose key is not among the messages processed |
| Hub.RegisterEachOfRegistered | src/hub.js:102-105 | running the loop again over messages that already hold sub changes nothing |
| Hub.RegisterEachStep | src/hub.js:81-110 | proof step: the loop over one more message is one more registration |
| Hub.SubscribeSpec | src/hub.js:66-113 | the registry and outcome of `subscribe`: no key is ever removed, and a success hands back the subscriber |
| Hub.SubscribeOutcome | src/hub.js:72-112 | a non-array argument fails and changes nothing; success iff every message is well-formed, and then sub is returned; otherwise the error names the first malformed message |
| Hub.SubscribeRegisters | src/hub.js:81-110 | the registry stays valid. Each message before the first malformed one holds sub exactly once; every other entry is unchanged, so a failure is partial, not all-or-nothing |
| Hub.SubscribeIsIdempotent | src/hub.js:102-105 | subscribing again with the same messages and subscriber gives the same registry and outcome |
| Hub.SubscribeStringAsList | src/hub.js:72-74 | a lone string behaves exactly like a one-element array |
| Hub.MatchingPatterns | src/hub.js:30-34 | the registered patterns kept are exactly those that match the message |
| Hub.Gather | src/hub.js:49-52 | every gathered subscriber comes from the list of some matching key, and every subscriber of every matching key is gathered |
| Hub.Recipients | src/hub.js:55 | the subscribers left after de-duplication are pairwise distinct |
| Hub.Deliveries | src/hub.js:58-60 | one `receive` per subscriber: as many deliveries as subscribers, each listed subscriber receives and no one else does, every delivery with the message and payload |
| Hub.EmitSpec | src/hub.js:28-61 | `emit` with the `unique` of src/utils/unique.js: it fails exactly when the message holds `*`, and then with the wildcard error; on success every delivery carries the emitted message and payload |
| Hub.EmitRefusesWildcards | src/hub.js:44-46 | emission fails iff the message holds `*`, with the wildcard error |
| Hub.EmitDeliversToMatchingSubscribers | src/hub.js:49-60 | a star-free emission succeeds. Every delivery carries the message and payload; no subscriber is delivered to twice; a subscriber is delivered to iff it is registered under some pattern that matches |
| Hub.DeliveredIffSubscribed | src/hub.js:49-60 | one subscriber at a time: it receives exactly when it is registered under a pattern that matches |
| Hub.GatheredIsSubscribed | src/hub.js:49-56 | every recipient is registered under a matching pattern |
| Hub.SubscribedIsGathered | src/hub.js:49-56 | every subscriber registered under a matching pattern is a recipient |
| Hub.DeliverAll | src/hub.js:58-60 | the delivery loop makes one delivery per subscriber, in order, with the message and payload |
| Hub.EmitAsWritten | src/hub.js:3 | as written, `emit` never succeeds |
| Hub.EmitAsWrittenNeverDelivers | src/hub.js:55 | as written, every star-free emission throws at the `unique` call, where the corrected `EmitSpec` succeeds |
| Hub.Hub.constructor | src/hub.js:10-15 | a new hub has an empty, valid registry of its own |
| Hub.Hub.Subscribe | src/hub.js:66-113 | the new registry and the returned outcome are exactly `SubscribeSpec` of the old registry, and the registry stays valid |
| Hub.Hub.RegisterMessages | src/hub.js:81-110 | the loop stops at the first malformed message, returns its position, and leaves the registry as `RegisterEach` of the prefix before it |
| Hub.Hub.AddSubscriber | src/hub.js:97-109 | one loop turn changes the registry exactly as `Register` does and keeps it valid |
| Hub.Hub.Emit | src/hub.js:28-61 | the result is exactly `EmitSpec` of the registry, and the registry is not changed |
| Hub.Hub.GatherSubscribers | src/hub.js:49-52 | the concatenation loop computes `Gather` of the matching keys |
| Hub.Hub.Unsubscribe | src/hub.js:21-23 | the registry is unchanged and stays valid |
| HubScenarios.SubscribeOne | src/hub.js:72-112 | subscribing one well-formed message registers it once and returns the subscriber |
| HubScenarios.SubscribeNew | src/hub.js:107-109 | subscribing to a message not yet registered creates the entry `[sub]` at the end of the key order |
| HubScenarios.PairRegistryValid | src/hub.js:97-109 | two distinct well-formed patterns with one subscriber each form a valid registry |
| HubScenarios.OverlappingRegistry | test/hub.js:215-216 | `subscribe('menu:*')` then `subscribe('menu:open', sub)` gives the registry holding sub under both |
| HubScenarios.MatchingPair | src/hub.js:30-34 | in a two-pattern registry, the matching patterns are those of the two that match, in key order |
| HubScenarios.BothPatternsMatch | src/hub.js:49-56 | one subscriber under two patterns that both match is reached once |
| HubScenarios.FirstPatternMatches | src/hub.js:49-56 | when only the first pattern matches, only its subscriber is reached |
| HubScenarios.NeitherPatternMatches | src/hub.js:49-56 | when neither pattern matches, no one is reached |
| HubScenarios.OverlappingMatches | test/hub.js:212-226 | `menu:*` matches `menu:open` and `menu:close`; `menu:open` matches only `menu:open` |
| HubScenarios.OverlappingRecipients | test/hub.js:212-226 | sub, under both `menu:*` and `menu:open`, is the only recipient of `menu:open` and of `menu:close` |
| HubScenarios.OverlappingPatternsDeliverOnce | test/hub.js:212-226 | emitting `menu:open` and then `menu:close` delivers to sub exactly once each |
| HubScenarios.EmitStarFree | src/hub.js:44-60 | proof step: a star-free emission delivers to the recipients in order |
| HubScenarios.EmitToNoOne | src/hub.js:58-60 | a star-free emission without recipients delivers nothing |
| HubScenarios.IsolatedMatches | test/hub.js:229-240 | neither `menu:cl` nor `menu:close` matches `menu:click` |
| HubScenarios.IsolatedRegistryValid | test/hub.js:229-231 | `menu:cl` and `menu:close` with one subscriber each form a valid registry |
| HubScenarios.NonMatchingPatternsReceiveNothing | test/hub.js:229-240 | emitting `menu:click` delivers to no subscriber of `menu:cl` or `menu:close` |
| HubScenarios.OverlappingPatternsAsWritten | test/hub.js:212-226 | as written, the first emission of the overlap scenario throws instead of delivering |

## Left out

- src/sub.js, the subscriber adapter: subscribers are opaque identities. The adapter adds a
  no-op `receive` to objects that lack one, which the model does not need. As written,
  `Subscriber(hub, sub)` at src/hub.js:70 passes the hub as the adapter's only parameter. The
  adapter would then return the hub itself, not `sub`. The model follows the evident intent,
  and `subscribe` returns the handle it was given. When `subscribe` is called without a
  subscriber, the adapter creates a new empty object (src/sub.js:9), and test/hub.js:43-48
  relies on that object being a new identity. The model leaves it to the caller to pass a new
  identity in that case.
- Regular-expression metacharacters: every pattern character other than `*` is compared
  literally. The source escapes none of `\ ^ $ . | ? + ( ) [ ] { }`, so `toRegex("a|b")` also
  accepts `xa|b`. For the hub this does not matter, because the subscription grammar admits none
  of them into the registry. `matches` and `toRegex` called directly on such patterns are not
  modelled, and the lemmas below hold of the source only on patterns without them:
- Glob.StarInMessageMatchesNothing and the other `Glob` lemmas: stated for the literal
  comparison, which is what the source does on a pattern satisfying `PlainPattern`.
- Wildcard.ToRegexWithoutStars: requires `PlainPattern` of the pattern.
- Wildcard.ToRegexIsAnchored: requires `PlainPattern` of the pattern (an unescaped `|` splits
  the anchors).
- Helpers.WildcardMessageMatchesNothing: requires `PlainPattern` of the pattern (an unescaped
  `.` matches a `*`).
- Unique.Dedup: `indexOf` compares with `===`, under which `NaN` differs from itself, so
  `unique([NaN, NaN])` keeps both. Dafny's `==` is reflexive. The hub only de-duplicates
  subscriber objects, for which `===` is identity.
- Non-string elements inside the `messages` array, and `toRegex` called with a non-string:
  these are excluded by Dafny's types.
- src/utils/glob-to-regex.js: it wraps an external glob library, which is not part of this
  model.
- Caching of the last payload, asynchronous or round-by-round delivery, isolation of errors
  thrown by subscribers, and removal of subscribers: the source implements none of them.
- Subscribers' own behaviour when they receive: a delivery is a record in the returned log,
  and a `receive` that throws or calls back into the hub is not modelled.
- Build and test tooling (Gruntfile.js, gulpfile.js), and test/dispatch.js and
  test/ground-control.js, whose modules under test are not part of this model.
- The `unique` import: the rest of the model uses src/utils/unique.js's `unique`, not the one
  that src/hub.js:3 imports (see Findings).

## Findings

| source | as written | input that shows it | evidently intended | confidence | as-written member | corrected member |
|---|---|---|---|---|---|---|
| src/hub.js:3 | `unique` is read from src/helpers.js, which exports only `matches`. The call at src/hub.js:55 therefore throws a TypeError on every emission that passes the wildcard check | `emit('menu:open', p)` with sub under `menu:*` and `menu:open` (test/hub.js:212-226) | de-duplicate with src/utils/unique.js and deliver once to each matching subscriber | high, not executed | Hub.EmitAsWrittenNeverDelivers | Hub.EmitDeliversToMatchingSubscribers |
