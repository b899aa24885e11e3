# Stand-up store monitoring: the watcher, modelled in Dafny

The system polls the listing page of a stand-up club's ticket store. Each element
of the listing that has no child elements stands for one event. For each such
element the watcher builds an `Event` and fingerprints it with an MD5 digest. The
watcher remembers every fingerprint it has seen and hands on only events with an
unseen fingerprint. The first page it manages to fetch and parse is a baseline:
its events are remembered but not sent. A separate notifier renders each event
it receives into a Markdown chat message.

The model has two modules.

- `events.dfy` (module `Events`) models internal/monitoring/event.go. It covers
  the `Event` record and `GetSum`: the fingerprint is the `%x` rendering of the
  MD5 digest of date + time + link + description + price. It also covers
  `BuildMessage` and its pieces: the `addEmojiBeforeTextReplacer` substitution
  and the base-32 `rand` stamp on the booking link. These are pure functions with
  lemmas.
- `monitoring.dfy` (module `Monitoring`) models internal/monitoring/monitoring.go.
  It has a class `Watcher` with its `cache` of fingerprints. The method
  `FindNewInStockEvents` walks the listing in document order, fingerprints the
  leaf entries, and checks and inserts each fingerprint into the cache. The
  method `Watch` is the polling loop with its `send` flag. Each method is proved
  against a specification function: `Scan` for one page, and `Run` for a
  sequence of signals (`Step` and `Cycle` per signal). The properties the source
  relies on are proved as lemmas about these functions.

Modelling choices:

- A listing page is a sequence of `Entry` records in document order. Each record
  holds the entry's number of child elements (goquery's `Children()` counts
  elements only, not text or comment nodes), the `.date`, `.month` and event-title
  texts of its card, and the card link's `href`, if the card has one.
- A missing `href` gives the empty string, as `Attr` does when its second result
  is ignored.
- `md5.Sum` and `strings.Title` are function-typed parameters (`Foreign`). The
  model does not interpret them. Nothing is assumed about MD5, in particular
  not that it is collision-free.
- Go strings are UTF-8 bytes. The model works on Unicode characters, which gives
  the same concatenations, searches and replacements for well-formed text. The
  UTF-8 encoding step before MD5 is part of the uninterpreted digest.
- The replacer's pattern is "Сбор" (U+0421 U+0431 U+043E U+0440). Its
  replacement is a newline, U+23F1 U+FE0F (the stopwatch emoji), a space, and
  the same word. The message template uses 📆 🎤 💷 🎟️ 🎫 and the link text
  "Купить билеты".
- Each tick of `Watch` comes to one `Outcome`: `FetchError` (`Get` returned an
  error: a transport failure or a timeout), `ParseError` (reading or parsing the
  body failed) or `Doc(entries)`. Any HTTP response, an error status included,
  is a `Doc` of whatever listing entries its page holds (usually none for an
  error page), and such a page counts as the baseline like any other. Each
  round of the `select` comes to one `Signal`: `Shutdown` or `Tick(outcome)`.
  `Watch` takes the sequence of signals. It returns the events it would have sent
  on the updates channel, and whether it closed that channel.
- `BuildMessage` takes the Unix time `now` as a parameter.

The code in internal/monitoring fetches no event detail pages, escapes no
Markdown, looks up no month names and fills in no placeholder texts. `Time`
comes from the listing's title element. `Price`, `Description` and `Remaining`
stay empty for every event the watcher builds. The month only goes through
`strings.Title`.

## Model

| member | source | states |
|---|---|---|
| `Events.Identity` | internal/monitoring/event.go:27 | the text the digest is taken of: Date, Time, Book, Description and Price concatenated in that order, with no separator and without Remaining |
| `Events.Hex` | internal/monitoring/event.go:27 | `%x` of a byte string has two characters per byte, all lower-case hex digits |
| `Events.UnHexHex` | internal/monitoring/event.go:27 | the hex rendering reads back to the bytes it rendered (round trip) |
| `Events.HexInjective` | internal/monitoring/event.go:27 | two byte strings have equal hex renderings if and only if they are equal |
| `Events.GetSum` | internal/monitoring/event.go:26-28 | the fingerprint of a 16-byte digest is exactly 32 lower-case hex characters |
| `Events.SumAgreesWithDigest` | internal/monitoring/event.go:26-28 | two events have equal fingerprints if and only if the MD5 digests of their concatenated identity texts are equal |
| `Events.SumDecodes` | internal/monitoring/event.go:27 | the fingerprint reads back to the MD5 digest of date+time+book+description+price |
| `Events.SumIgnoresRemaining` | internal/monitoring/event.go:26-28 | changing `Remaining` never changes the fingerprint |
| `Events.SumIgnoresFieldBoundaries` | internal/monitoring/event.go:27 | with no separator, two different events whose concatenated fields are equal ("1"+"2" against "12"+"") get the same fingerprint |
| `Events.ReplaceAll` | internal/monitoring/event.go:12-14 | `strings.Replacer.Replace` for one pair with a non-empty pattern: each leftmost occurrence is replaced, and scanning resumes after it, so matches never overlap |
| `Events.AddEmojiBeforeText` | internal/monitoring/event.go:12-14 | `addEmojiBeforeTextReplacer.Replace`: each "Сбор" becomes a newline, the stopwatch emoji, a space and "Сбор" |
| `Events.ReplaceSkips` | internal/monitoring/event.go:12-14 | the replacer copies the text before the first occurrence of the pattern unchanged |
| `Events.ReplaceFirst` | internal/monitoring/event.go:12-14 | the leftmost occurrence of the pattern is replaced by the replacement, and the scan resumes right after it |
| `Events.ReplaceAbsent` | internal/monitoring/event.go:12-14 | a text without the pattern passes through the replacer unchanged |
| `Events.OutputNotStartingWithWord` | internal/monitoring/event.go:12-14 | a replacer output never starts with a bare "Сбор" |
| `Events.OccurrencesCarryPrefix` | internal/monitoring/event.go:12-14 | every occurrence of "Сбор" in a replacer output is immediately preceded by the newline, stopwatch emoji and space: no bare word survives and none is formed across a replacement |
| `Events.RemoveAfterAdd` | internal/monitoring/event.go:12-14 | stripping the stopwatch prefix from the replacer's output gives back the original description: the replacer only inserts the prefix before each "Сбор" and keeps all other text |
| `Events.FormatInt32` | internal/monitoring/event.go:38 | `strconv.FormatInt(n, 32)`: a '-' in front of the base-32 digits of the magnitude when n is negative |
| `Events.FormatNat32` | internal/monitoring/event.go:38 | `FormatInt(n, 32)` of a non-negative number is non-empty, has no leading zero and uses only the digits 0-9a-v |
| `Events.ParseFormatNat32` | internal/monitoring/event.go:38 | the base-32 digits of a non-negative number read back to that number |
| `Events.ParseFormatInt32` | internal/monitoring/event.go:38 | `FormatInt(n, 32)` reads back to `n` for every integer, negative ones included |
| `Events.Base32Alphabet` | internal/monitoring/event.go:38 | the stamp starts with '-' exactly when the time is negative, and every other character is one of 0-9a-v |
| `Events.BuildMessage` | internal/monitoring/event.go:30-40 | the Markdown template filled with Date and Time, the replaced Description, Price, Remaining and the booking link stamped with `now` |
| `Events.BookingLink` | internal/monitoring/event.go:38 | the message link is the event's `Book`, then "?rand=", then a stamp that reads back to `now` |
| `Events.PlainDescriptionVerbatim` | internal/monitoring/event.go:30-39 | a description without "Сбор" goes into the message verbatim |
| `Events.StampAfterLink` | internal/monitoring/event.go:38 | in any text ending with the booking link and ")\n", the characters between "?rand=" and the closing ")\n" read back to the time the link was built at |
| `Events.ClosedLinkInjective` | internal/monitoring/event.go:38 | two booking links for one event, each closed by ")\n", are equal only if they were built at the same second |
| `Events.MessagesAtDifferentTimesDiffer` | internal/monitoring/event.go:38 | messages for one event built at different seconds are different texts |
| `Monitoring.ToEvent` | internal/monitoring/monitoring.go:42-46 | the event built for a listing entry: `Date` = day + " " + Title(month), `Time` = title text, `Book` = href or "", other fields empty |
| `Monitoring.EntrySumIsListingDigest` | internal/monitoring/monitoring.go:41-48 | an entry's fingerprint is the hex MD5 of day + " " + Title(month) + title text + href: the empty price and description add nothing |
| `Monitoring.Scan` | internal/monitoring/monitoring.go:34-61 | one event per picked index, in the same order. Each is the event built from that entry: `Date` = day + " " + Title(month), `Time` = title text, `Book` = href, other fields empty |
| `Monitoring.ScanCache` | internal/monitoring/monitoring.go:49-50 | after a scan the cache is the old cache plus the fingerprints of all leaf entries of the page; no key is removed |
| `Monitoring.ScanOrder` | internal/monitoring/monitoring.go:37-38 | only entries with no child elements become events, and events keep the document order of their entries |
| `Monitoring.ScanSelects` | internal/monitoring/monitoring.go:37-52 | an entry becomes an event if and only if it is a leaf whose fingerprint was not cached and did not occur earlier on the page |
| `Monitoring.ScanFresh` | internal/monitoring/monitoring.go:48-52 | every returned event's fingerprint was absent from the cache before the scan and is present after it; no two returned events share a fingerprint |
| `Monitoring.ScanEmitsWhatItInserts` | internal/monitoring/monitoring.go:49-51 | the fingerprints of the returned events are exactly the keys the scan added to the cache |
| `Monitoring.ScanCachedPage` | internal/monitoring/monitoring.go:49-52 | a page whose leaf fingerprints are all cached yields no events and leaves the cache unchanged |
| `Monitoring.ScanAgainFindsNothing` | internal/monitoring/monitoring.go:49-52 | scanning the same page a second time yields no events |
| `Monitoring.Cycle` | internal/monitoring/monitoring.go:77-96 | one tick: a failed fetch or parse changes nothing; a parsed page is scanned, its new events are sent only when `send` was set, and `send` becomes true |
| `Monitoring.Step` | internal/monitoring/monitoring.go:70-98 | one round of the `select`: shutdown closes the channel and ends the loop, a tick runs one cycle, nothing happens once the loop has ended |
| `Monitoring.Run` | internal/monitoring/monitoring.go:69-100 | the goroutine's state after it has received a sequence of signals, one `select` round per signal, in order |
| `Monitoring.BaselineSendsNothing` | internal/monitoring/monitoring.go:91-96 | while `send` is false, a parsed page adds all its leaf fingerprints to the cache, sends nothing, and sets `send` |
| `Monitoring.LaterCyclesSendNew` | internal/monitoring/monitoring.go:91-96 | once `send` is set, a parsed page sends exactly the events its scan found new, in order |
| `Monitoring.RunMonotone` | internal/monitoring/monitoring.go:70-98 | along any run the cache and the sent events only grow, `send` never reverts to false, and nothing changes after the channel is closed |
| `Monitoring.ShutdownIsFinal` | internal/monitoring/monitoring.go:72-76 | a shutdown closes the channel, and no signal after it changes the cache or sends anything |
| `Monitoring.FailuresChangeNothing` | internal/monitoring/monitoring.go:78-89 | fetch and parse failures leave no trace: a run ends in the same state with the failed ticks removed |
| `Monitoring.EmptyPageBecomesBaseline` | internal/monitoring/monitoring.go:78-96 | a first parsed page without entries (an HTTP error page, say) is taken as the baseline: it sets `send` and caches nothing, so the next page sends every event its scan finds new |
| `Monitoring.OnlyTheNewEventIsSent` | internal/monitoring/monitoring.go:63-98 | starting from an empty cache, a page with A and B then a page with A, B and a new C sends only C |
| `Monitoring.Watcher.constructor` | internal/monitoring/monitoring.go:25-32 | a new watcher has an empty cache |
| `Monitoring.Watcher.FindNewInStockEvents` | internal/monitoring/monitoring.go:34-61 | the returned events and the new cache are those of `Scan` on the old cache and the page |
| `Monitoring.Watcher.Watch` | internal/monitoring/monitoring.go:63-102 | the sent events, the final cache and the closed flag are those of `Run` from the old cache with `send` false |

## Left out

- HTTP fetching and the 10-second client timeout: network I/O. Each tick's fetch is reduced to its outcome (`FetchError`, `ParseError`, `Doc`).
- goquery parsing, the CSS selectors and the `Parent().Parent()` walk to the card and its first link: a foreign DOM library. The page is a sequence of `Entry` records.
- `md5.Sum` and the UTF-8 encoding before it: uninterpreted (`Foreign.md5`). No collision-freedom is claimed.
- `strings.Title`: uninterpreted (`Foreign.title`).
- The goroutine, the unbuffered channel and its blocking sends, `close`, and the `select`: concurrency. The model takes the sequence of signals the `select` receives and returns the sent events as a sequence.
- Ticker timing: one-second ticks until the first successful cycle, then the check interval. A new ticker is created after every parsed page, and the old ones are left running. `time.NewTicker` panics when the interval is not positive, which ends the program after the first parsed page; the model assumes a positive interval and goes on processing ticks.
- `Watch` loops forever. `Monitoring.Watcher.Watch` handles a finite sequence of signals, which models any finite prefix of that run.
- `time.Now()` in `BuildMessage`: passed in as `now`.
- `strings.Replacer` is modelled only for a single pair with a non-empty pattern, which is the only shape `addEmojiBeforeTextReplacer` uses. Empty and one-byte patterns take other paths in the Go library.
- `strconv.FormatInt` is modelled for base 32 only, the base `BuildMessage` uses.
- Logging: every `zap` call.
- cmd/standupstoremonitoring/main.go (environment parsing, the Telegram bot, the send-retry loop) and pkg/logger/logger.go (logger set-up) are not part of this model.
