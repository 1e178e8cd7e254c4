# MusicSoc booking bot: the booking core in Dafny

This project models the booking core of the MusicSoc booking bot. The bot is a chat bot
that lets the members of a conversation book a shared room with slash commands. Two
source files are modelled:

- `lib/store.js`, the booking store. For each conversation it keeps an ordered list of
  `{ booking, bookerJid, created_at }` records. The model holds the store in memory:
  `Store.BookingStore` is a class whose `bookings` field is a
  `map<string, seq<Record>>`, and its methods update that field in place.
- `lib/commands.js`, the command table and the dispatcher `handleCommand`, with these
  handlers:
  - `/ping` replies `Pong.`;
  - `/book` matches its arguments against the booking pattern, stores the entry with a
    `/` between day and month, and confirms it;
  - `/list` reads every stored entry back with `parseBooking`, sorts by start instant,
    groups under `dayName D/M` headers and renders the lines and the mention list;
  - `/cancel` reads an integer and removes the record at that 1-based position;
  - `/help` builds the help text from the table.

Files:

- `wrappers.dfy` defines `Option`.
- `text.dfy` holds the JavaScript string operations the core relies on: white space
  as `\s` and `trim` see it, `split`, `join`, ASCII `toLowerCase`, `Number` on digit
  strings, decimal display, and `parseInt(s, 10)`.
- `calendar.dfy` holds the part of ECMAScript `Date` that `parseBooking` uses:
  MakeDay, MakeFullYear and `getDay()`, counted in minutes of local time. Out-of-range
  fields carry over exactly as `Date` carries them.
- `store.dfy` holds the store.
- `booking.dfy` holds the `/book` pattern, the stored entry and `parseBooking`.
- `listing.dfy` holds `/list`: IDs, the stable sort, grouping and rendering.
- `commands.dfy` holds the table, the dispatcher, the handlers and the whole-message
  specification `Outcome`.

The wall clock is a parameter. `year` stands for `new Date().getFullYear()` and
`createdAt` for the ISO timestamp `addBooking` records. Replies are returned as
`Reply(text, mentions)` values instead of being sent.

The code has no range checks on day, month, hour or minute. It has no end-after-start
check, no 180-minute cap and no rejection of past bookings. It does no overlap
detection, no pruning of expired bookings and no owner check on `/cancel`. IDs are
given before sorting and rendered as `[ID: n]`. The model follows the code on each of these points.

## Model

| member | source | states |
|---|---|---|
| Store.BookingStore.constructor | lib/store.js:11-17 | a new store holds no conversation, like the `{}` document `initStore` writes |
| Store.BookingStore.AddBooking | lib/store.js:33-46 | appends exactly `Record(bookingText, bookerJid, createdAt)` to the conversation's list, creating the list if absent; the old list is the new list's prefix, as `getBookings` reads them before and after; returns old length + 1, the new length; no other conversation changes |
| Store.BookingStore.SetBookings | lib/store.js:48-57 | the conversation's list becomes `newBookings`, so a following `getBookings` returns exactly `newBookings`; no other conversation changes, so `getBookings` of every other conversation is as before |
| Store.BookingStore.RemoveBooking | lib/store.js:59-70 | unknown conversation: `NoConversation` (`false`) and nothing written; index outside 1..length: `NotFound` (`null`) and nothing written; otherwise returns record n-1 and the list becomes `Without(list, n-1)`; no other conversation changes |
| Store.Without | lib/store.js:65 | `splice(k, 1)`: length drops by one, elements before k and after k keep their order, and the multiset loses exactly `xs[k]` |
| Text.TrimStart | lib/commands.js:53 | the result is a suffix, everything removed is white space, and it does not start with white space |
| Text.TrimEnd | lib/commands.js:53 | the result is a prefix, everything removed is white space, and it does not end with white space |
| Text.TrimOf | lib/commands.js:53 | `trim` removes exactly the white space around a text that neither starts nor ends with white space |
| Text.Split | lib/commands.js:5 | `split` gives at least one piece, and no piece contains a separator |
| Text.JoinSplit | lib/commands.js:63-64 | joining the pieces of `s.split(c)` with `c` gives `s` back |
| Text.SplitJoin | lib/commands.js:63-64 | splitting pieces free of `c`, once joined with `c`, gives the same pieces back |
| Text.SplitWs | lib/commands.js:168 | `split(/\s+/)`: the first piece is the leading run of non-space characters, and no piece contains white space |
| Text.JoinSplitWs | lib/commands.js:168-170 | re-joining the `\s+` pieces with single spaces collapses each white-space run to one space |
| Text.NatToString | lib/commands.js:29 | decimal display: a digit string whose value is n and which has no leading zero |
| Text.NatToStringOfDigits | lib/commands.js:29 | a digit string without a leading zero is the display of its own value |
| Text.Number | lib/commands.js:7 | defined exactly on digit strings |
| Text.ParseIntOfDisplay | lib/commands.js:133 | `parseInt` reads back the display of any integer, whatever non-digit text follows |
| Text.ParseIntTrim | lib/commands.js:133 | trimming before `parseInt` changes nothing: leading white space is skipped anyway, and reading stops before trailing white space |
| Text.CommandWords | lib/commands.js:168-170 | for a word free of white space followed by white space, the first `\s+` piece is the word and the other pieces joined by spaces are the rest with each white-space run collapsed |
| Calendar.WeekDay | lib/commands.js:22-23 | `getDay()` is always an index into the seven day names |
| Calendar.WeekDayNext | lib/commands.js:19-23 | one day later is the next day of the week |
| Calendar.DayFromYearStep | lib/commands.js:19 | the closed form of DayFromYear agrees with the Gregorian leap-year rule |
| Calendar.DayAfterMonthEnd | lib/commands.js:19 | the day after a month's last day is the first of the next month: this is how `31/4` rolls into May |
| Calendar.MonthCarriesIntoYear | lib/commands.js:19 | a month index past December is that month of the next year |
| Calendar.InRangeOrder | lib/commands.js:19 | for in-range fields of one year, `Date` order is the lexicographic order of (month, day, hour, minute) |
| Calendar.SameDayInRange | lib/commands.js:19 | two in-range instants of one year fall on the same day exactly when month and day agree |
| Booking.MatchClock | lib/commands.js:52 | a match of `\d{1,2}:\d{2}` is a well-formed clock followed by the rest of the text |
| Booking.MatchClockOf | lib/commands.js:52 | every well-formed clock is matched, with the rest returned unchanged |
| Booking.MatchTimes | lib/commands.js:52 | a match of the two clocks joined by `-` spells the text exactly |
| Booking.MatchTimesOf | lib/commands.js:52 | every pair of well-formed clocks joined by `-` is matched |
| Booking.MatchArgs | lib/commands.js:52-53 | soundness of the `/book` pattern: a match is well formed and spells the text exactly |
| Booking.MatchArgsSpell | lib/commands.js:52-53 | completeness: every text in the pattern's language matches, with its own pieces |
| Booking.BookEntryMatches | lib/commands.js:52-66 | an entry exists exactly when the trimmed arguments match; it is the match with `/` as date separator and one space before the times, the digits kept as typed |
| Booking.BookEntryOf | lib/commands.js:53-66 | any white space around a text of the pattern's language still gives that text's normalised entry |
| Booking.NormalisedWellFormed | lib/commands.js:60-66 | a stored entry is itself in the pattern's language and normalises to itself |
| Booking.ParseFields | lib/commands.js:5-17 | when the numbers parse, the time range is the second space-separated piece |
| Booking.ParseBooking | lib/commands.js:4-32 | parses exactly when the fields parse; keeps the original text; the day name is one of the seven |
| Booking.ParseEntry | lib/commands.js:4-32 | on a stored entry, `parseBooking` gives the typed numbers, `new Date(year, month - 1, day, hour, minute)`, its day name, `D/M` in plain numbers and the time range as stored |
| Booking.LeadingZerosDropped | lib/commands.js:7-30 | `05/03 10:00-11:00` displays as `5/3` with time range `10:00-11:00` |
| Booking.ClockSplit | lib/commands.js:16-17 | splitting a clock time on `:` gives its hour and minute digits |
| Booking.DisplaySplit | lib/commands.js:29 | splitting `D/M` on `/` gives the two numbers' displays |
| Booking.DisplayInjective | lib/commands.js:29 | the `D/M` display determines D and M |
| Booking.SameDayFields | lib/commands.js:7-19 | in-range entries start on the same day exactly when their day and month numbers agree |
| Booking.SameHeaderSameDay | lib/commands.js:19-29 | in-range entries of one year get the same group header exactly when they start on the same day |
| Listing.Insert | lib/commands.js:94 | insertion adds exactly one element |
| Listing.InsertAscending | lib/commands.js:94 | insertion keeps a list ascending by start |
| Listing.InsertChronological | lib/commands.js:94 | insertion of a later-stored item keeps the (start, ID) order |
| Listing.SortByStart | lib/commands.js:94 | the sorted list is a permutation of the items |
| Listing.SortByStartOrder | lib/commands.js:94 | the sorted list is ascending by start; with IDs in store order, equal starts keep store order (stability) |
| Listing.ChronologicalUnique | lib/commands.js:94 | two permutations of one list that are both in (start, ID) order are equal |
| Listing.SortIsTheStableSort | lib/commands.js:94 | any stable sort of the items by start is `SortByStart`, so the model is the sort ES2019 requires |
| Listing.Headers | lib/commands.js:97-108 | the group keys are distinct, and a key exists exactly when some item carries that header |
| Listing.WithHeader | lib/commands.js:97-102 | a group holds only items with its header that are in the list, and it is non-empty exactly when such an item exists |
| Listing.GroupingPartition | lib/commands.js:97-121 | grouping is a partition: the groups hold exactly the items, each once |
| Listing.GroupsWellFormed | lib/commands.js:97-102 | every group is non-empty and each of its items carries the group's header |
| Listing.HeadersFirstSeen | lib/commands.js:98-108 | the k-th group is the k-th header to occur, scanning the sorted items |
| Listing.WithHeaderChronological | lib/commands.js:98-101 | `push` keeps each group in sorted order |
| Listing.GroupByHeader | lib/commands.js:97-102 | the `forEach` fills `grouped` with exactly the first-seen keys, each holding its items in order |
| Listing.LocalPart | lib/commands.js:114 | `jid.split('@')[0]` is the longest prefix without `@` |
| Listing.Bookers | lib/commands.js:113-116 | mentions hold only non-empty bookers |
| Listing.BookersAppend | lib/commands.js:110-121 | the mentions of two runs of items are the mentions of each, in order |
| Listing.RenderItems | lib/commands.js:110-119 | the item loop produces each line plus newline, and the bookers in order |
| Listing.Render | lib/commands.js:105-121 | the group loop produces header, lines and a blank line per group, and the mentions of all items in display order |
| Listing.ListBookings | lib/commands.js:81-123 | `No bookings found.` for an empty list, otherwise the trimmed layout of the sorted and grouped items with their mentions |
| Listing.ListShowsEachRecordOnce | lib/commands.js:88-121 | every stored record is displayed exactly once |
| Listing.ListIdIsPosition | lib/commands.js:88-92 | the ID shown with an item is the 1-based position of the record it was read from |
| Listing.ListGroupsChronological | lib/commands.js:94-102 | within each group, items are in start order, and equal starts are in store order |
| Listing.LastHeader | lib/commands.js:98-102 | with contiguous headers, the last key is the last item's header |
| Listing.GroupsForLast | lib/commands.js:100-101 | an item under the last key joins the end of the last group |
| Listing.GroupingSnoc | lib/commands.js:98-102 | an item that keeps headers contiguous is displayed last |
| Listing.ContiguousGrouping | lib/commands.js:97-121 | when equal headers stand together, grouping does not reorder the items |
| Listing.ItemsHeaderDay | lib/commands.js:88-99 | among in-range records, two items share a header exactly when they start on the same day |
| Listing.SortedInRangeContiguous | lib/commands.js:94-99 | after sorting in-range records, each day's items stand together |
| Listing.AscendingContiguous | lib/commands.js:94-99 | in start order, items whose header is determined by their day stand together by header |
| Listing.ListInOrder | lib/commands.js:88-121 | when every stored date is in range, `/list` shows exactly the stable start order |
| Listing.CarriedParse | lib/commands.js:19-29 | an entry on the day after a month's last day starts on the first of the next month, under that day's week-day name, but displays the day and month as typed |
| Listing.SplitHeaderGrouping | lib/commands.js:97-108 | three sorted items whose first and last share a header and whose middle one does not are shown first, last, middle |
| Listing.CarriedDateOutOfOrder | lib/commands.js:94-108 | with two entries on a carried date and an entry on the next month's first starting between them, `/list` shows the later carried entry before the earlier-starting one |
| Listing.CarriedExample | lib/commands.js:88-121 | the records `31/4 9:00-10:00`, `1/5 10:00-11:00`, `31/4 11:00-12:00` are listed with IDs 1, 3, 2, so the second shown item starts after the third |
| Commands.LookupIn | lib/commands.js:169 | a definition is found exactly when the table has that key, and it is the entry with that key |
| Commands.Resolve | lib/commands.js:166-171 | text without a leading `/` leads to no action |
| Commands.ResolveCommandLine | lib/commands.js:166-171 | `/word rest` runs the command the lower-cased word names, with the arguments' white-space runs collapsed to single spaces; an unknown word leads to nothing |
| Commands.ResolveIgnoresCase | lib/commands.js:169 | command words that differ only in letter case resolve alike |
| Commands.ResolveUnknown | lib/commands.js:169-172 | a word that is not a key of the table leads to nothing |
| Commands.ResolveAsWrittenDiffers | lib/commands.js:169-179 | the as-written lookup differs from the intended one only for `constructor` and `__proto__`, where it fails instead of ignoring |
| Commands.LowerCaseMembers | lib/commands.js:169 | `constructor` and `__proto__` are the only inherited member names a lower-cased word can equal |
| Commands.ConstructorFails | lib/commands.js:169-179 | `/constructor` in any letter case gets the error reply as written, and nothing under the intended lookup |
| Commands.HandleBook | lib/commands.js:45-71 | no match: usage reply and store unchanged; a match: the entry is appended with booker `participant` or else the conversation, and confirmed; other conversations unchanged; stored entries stay readable |
| Commands.HandleCancel | lib/commands.js:129-146 | no integer: usage reply and store unchanged; in range: removes record n-1 and echoes its text; otherwise the `not found` reply and store unchanged |
| Commands.CancelId | lib/commands.js:140-145 | with an ID n in 1..length: removes record n-1 and replies with its text; otherwise the `not found` reply with n and nothing changes; other conversations unchanged |
| Commands.BuildHelp | lib/commands.js:153-159 | the loop produces the banner followed by each command's entry in table order |
| Commands.HandleHelp | lib/commands.js:151-161 | the help reply is the banner and every command's entry |
| Commands.RunCommand | lib/commands.js:172-174 | running a command gives the reply and the conversation's list that `Effect` specifies; other conversations unchanged |
| Commands.HandleCommand | lib/commands.js:165-181 | a message gives the reply and the conversation's list that `Outcome` specifies; other conversations unchanged; a non-command changes nothing |
| Commands.EffectChanges | lib/commands.js:34-164 | only `/book` (one record appended) and `/cancel` (one record removed) change the list |
| Commands.EffectKeepsEntriesReadable | lib/commands.js:60-70 | every command leaves a list whose entries `/list` can read |
| Commands.EntryParses | lib/commands.js:4-32 | every entry `/book` stores parses |
| Commands.ShownIdParses | lib/commands.js:133 | `parseInt` of a shown ID, with any white space around it, is that ID |
| Commands.CancelByShownId | lib/commands.js:133-140 | `/cancel n` with the ID shown next to an item targets the record that item was read from |

## Left out

- File persistence (lib/store.js:8-31). `initStore`, `getStore`, `saveStore` and the JSON parse fallback are not modelled; the store is in memory.
- Sending messages. `sock.sendMessage` and quoting are not modelled; replies are returned.
- The error path. `console.error` and the generic error reply (lib/commands.js:175-178) are modelled only as the `Fail` action of `Commands.ResolveAsWritten`. The storage calls that could throw are modelled without failures.
- Concurrency. The handlers are async and do a whole-file read-modify-write, so concurrent messages can lose updates. The model runs one message at a time.
- The clock. `year` and `createdAt` are parameters; the model does not read the clock.
- Commands.HandleCommand: dispatches through the corrected lookup `Commands.Resolve`, so `/constructor` and `/__proto__` in any letter case get no reply, where the code sends the generic error reply (lib/commands.js:175-178); `Commands.ConstructorFails` states the behaviour as written.
- Time zones and daylight saving. Local time is a uniform count of minutes.
- `Date` range limits. The model does not cap time values at ±8.64e15 ms.
- Text.Number: only plain digit strings are modelled. JavaScript also reads `""` as 0, accepts surrounding white space and reads other numeric forms, or gives `NaN`. A stored entry that does not parse is outside the model. `/list` therefore requires every stored entry to parse (`Listing.AllParse`). Every handler keeps this true, and every entry `/book` stores parses.
- Text.ParseInt: integers are unbounded. JavaScript loses precision above 2^53, and its display switches to exponent form from 1e21 on.
- Text.ToLower: ASCII letters only. JavaScript's `toLowerCase` also folds other letters; for example, U+212A KELVIN SIGN becomes `k`.
- Store keys: a conversation id equal to an `Object.prototype` member name (such as `constructor`) is treated as an ordinary key.
- `Object.entries` order: group headers always contain a space, so they are never integer-like keys, and insertion order applies as modelled.
- Listing.ListInOrder: the global start order is proved only for in-range dates, because with carried dates it does not hold. `Listing.CarriedDateOutOfOrder` shows that a day one past a month's end keeps its own header, and `Listing.CarriedExample` lists `31/4 9:00-10:00`, `1/5 10:00-11:00` and `31/4 11:00-12:00` as 9:00, 11:00, 10:00. The code has no date validation that would rule this out.

## Findings

| source | as written | input that shows it | evidently intended | confidence | as-written member | corrected member |
|---|---|---|---|---|---|---|
| lib/commands.js:169-179 | `COMMANDS[cmdName.toLowerCase()]` also finds members inherited from `Object.prototype`; the dispatcher then calls their `handler`, which is `undefined`, and the catch sends the generic error reply | `/constructor` (any letter case), `/__proto__` | only the table's own keys are commands; other words get no reply | not executed | Commands.ResolveAsWritten, Commands.ConstructorFails | Commands.Resolve, Commands.HandleCommand |
