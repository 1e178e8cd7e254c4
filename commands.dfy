/** The command table and the dispatcher of `lib/commands.js`, with the `/ping`,
    `/book`, `/list`, `/cancel` and `/help` handlers. Replies are returned instead of
    being sent. */
module Commands {
  import opened Wrappers
  import opened Text
  import opened Store
  import opened Booking
  import opened Listing

  datatype Command = Ping | Book | List | Cancel | Help

  /** An entry of `COMMANDS`: its key, description and usage, and the handler it names. */
  datatype Definition = Definition(name: string, description: string, usage: string, command: Command)

  /** `COMMANDS`, in its key order. */
  const Table: seq<Definition> := [
    Definition("ping", "Check bot connectivity", "/ping", Ping),
    Definition("book", "Add a new booking", "/book DD/MM HH:MM-HH:MM", Book),
    Definition("list", "List all your bookings", "/list", List),
    Definition("cancel", "Cancel a booking by ID", "/cancel <id>", Cancel),
    Definition("help", "Show this help message", "/help", Help)
  ]

  /** The first entry of `table` with key `name`. */
  function LookupIn(table: seq<Definition>, name: string): (r: Option<Definition>)
    ensures r.Some? <==> exists i :: 0 <= i < |table| && table[i].name == name
    ensures r.Some? ==> r.value in table && r.value.name == name
  {
    if table == [] then None
    else if table[0].name == name then Some(table[0])
    else
      var r := LookupIn(table[1..], name);
      assert forall i :: 1 <= i < |table| ==> table[i] == table[1..][i - 1];
      r
  }

  /** `COMMANDS[name]` among the table's own keys. */
  function Lookup(name: string): Option<Definition> {
    LookupIn(Table, name)
  }

  // ---------------------------------------------------------------- dispatching

  /** What a message leads to: nothing, or a handler run on the re-joined arguments.
      `Fail` is the generic error reply sent when the handler throws. */
  datatype Action = Ignore | Run(definition: Definition, args: string) | Fail

  /** `handleCommand` up to the handler call: the text must start with `/`; the rest is
      split on runs of white space; the first word, lower-cased, selects the command and
      the other words, joined by single spaces, are its arguments. */
  function Resolve(text: string): (r: Action)
    ensures !r.Fail?
    ensures text == [] || text[0] != '/' ==> r == Ignore
  {
    if text == [] || text[0] != '/' then Ignore
    else Dispatch(SplitWs(text[1..]))
  }

  /** The command the first of `words` names, run on the others. */
  function Dispatch(words: seq<string>): Action
    requires |words| >= 1
  {
    match Lookup(ToLower(words[0]))
    case None => Ignore
    case Some(d) => Run(d, Join(words[1..], " "))
  }

  /** A command word followed by white space and arguments (or by nothing) runs the
      command its lower-case form names, with the arguments' white-space runs collapsed
      to single spaces. */
  lemma ResolveCommandLine(name: string, rest: string)
    requires NoSpace(name)
    requires rest == [] || IsSpace(rest[0])
    ensures Resolve("/" + name + rest)
         == match Lookup(ToLower(name))
            case None => Ignore
            case Some(d) => Run(d, Collapse(TrimStart(rest)))
  {
    CommandLineDispatch(name, rest);
    DispatchCommandLine(name, rest);
  }

  lemma CommandLineDispatch(name: string, rest: string)
    ensures Resolve("/" + name + rest) == Dispatch(SplitWs(name + rest))
  {
    var text := "/" + name + rest;
    assert text != [] && text[0] == '/' && text[1..] == name + rest;
  }

  lemma DispatchCommandLine(name: string, rest: string)
    requires NoSpace(name)
    requires rest == [] || IsSpace(rest[0])
    ensures Dispatch(SplitWs(name + rest))
         == match Lookup(ToLower(name))
            case None => Ignore
            case Some(d) => Run(d, Collapse(TrimStart(rest)))
  {
    CommandWords(name, rest);
  }

  /** Command names match whatever their letter case. */
  lemma ResolveIgnoresCase(name1: string, name2: string, rest: string)
    requires NoSpace(name1) && NoSpace(name2) && ToLower(name1) == ToLower(name2)
    requires rest == [] || IsSpace(rest[0])
    ensures Resolve("/" + name1 + rest) == Resolve("/" + name2 + rest)
  {
    ResolveCommandLine(name1, rest);
    ResolveCommandLine(name2, rest);
  }

  /** A first word that is not a key of the table leads to nothing. */
  lemma ResolveUnknown(name: string, rest: string)
    requires NoSpace(name)
    requires rest == [] || IsSpace(rest[0])
    requires forall i :: 0 <= i < |Table| ==> Table[i].name != ToLower(name)
    ensures Resolve("/" + name + rest) == Ignore
  {
    ResolveCommandLine(name, rest);
  }

  // ---------------------------------------------------------------- the lookup as written

  /** The members every object inherits from `Object.prototype`, which `COMMANDS[key]`
      finds as well as the table's own keys. */
  const PrototypeMembers: set<string> := {
    "constructor", "__proto__", "hasOwnProperty", "isPrototypeOf", "propertyIsEnumerable",
    "toString", "toLocaleString", "valueOf", "__defineGetter__", "__defineSetter__",
    "__lookupGetter__", "__lookupSetter__"
  }

  /** `handleCommand` as written: an inherited member is truthy, so the dispatcher calls
      its `handler`, which is `undefined`; the call throws and the catch sends the
      generic error reply. */
  function ResolveAsWritten(text: string): Action
  {
    if text == [] || text[0] != '/' then Ignore
    else
      var words := SplitWs(text[1..]);
      var key := ToLower(words[0]);
      match Lookup(key)
      case Some(d) => Run(d, Join(words[1..], " "))
      case None => if key in PrototypeMembers then Fail else Ignore
  }

  /** The two differ only where the lower-cased first word is an inherited member
      that is not a key of the table: `constructor` or `__proto__`, since every other
      inherited member has a capital letter. */
  lemma ResolveAsWrittenDiffers(text: string)
    ensures ResolveAsWritten(text) != Resolve(text) ==>
      && ResolveAsWritten(text) == Fail && Resolve(text) == Ignore
      && text != [] && text[0] == '/'
      && ToLower(SplitWs(text[1..])[0]) in {"constructor", "__proto__"}
  {
    if text != [] && text[0] == '/' {
      var key := ToLower(SplitWs(text[1..])[0]);
      LowerHasNoCapitals(SplitWs(text[1..])[0]);
      LowerCaseMembers(key);
    }
  }

  predicate HasCapital(s: string) {
    exists i :: 0 <= i < |s| && 'A' <= s[i] <= 'Z'
  }

  lemma LowerHasNoCapitals(s: string)
    ensures !HasCapital(ToLower(s))
  {
  }

  /** `constructor` and `__proto__` are the inherited members without capitals. */
  lemma LowerCaseMembers(key: string)
    ensures key in PrototypeMembers && !HasCapital(key) ==> key in {"constructor", "__proto__"}
  {
    assert "hasOwnProperty"[3] == 'O';
    assert "isPrototypeOf"[2] == 'P';
    assert "propertyIsEnumerable"[8] == 'I';
    assert "toString"[2] == 'S';
    assert "toLocaleString"[2] == 'L';
    assert "valueOf"[5] == 'O';
    assert "__defineGetter__"[8] == 'G';
    assert "__defineSetter__"[8] == 'S';
    assert "__lookupGetter__"[8] == 'G';
    assert "__lookupSetter__"[8] == 'S';
  }

  /** The first word of a command line is the key `ResolveAsWritten` looks up. */
  lemma ResolveAsWrittenCommandLine(name: string, rest: string)
    requires NoSpace(name)
    requires rest == [] || IsSpace(rest[0])
    ensures Lookup(ToLower(name)).None? && ToLower(name) in PrototypeMembers
        ==> ResolveAsWritten("/" + name + rest) == Fail
  {
    var text := "/" + name + rest;
    assert text[1..] == name + rest;
    SplitWsWord(name, rest);
  }

  /** `/constructor`, in any letter case, is sent the generic error reply instead of
      being ignored. */
  lemma ConstructorFails(name: string)
    requires NoSpace(name) && ToLower(name) == "constructor"
    ensures ResolveAsWritten("/" + name) == Fail
    ensures Resolve("/" + name) == Ignore
  {
    assert "/" + name + [] == "/" + name;
    ConstructorIsNoKey();
    assert ResolveAsWritten("/" + name + []) == Fail by {
      ResolveAsWrittenCommandLine(name, []);
    }
    assert Resolve("/" + name + []) == Ignore by {
      ResolveCommandLine(name, []);
    }
  }

  lemma ConstructorIsNoKey()
    ensures Lookup("constructor").None? && "constructor" in PrototypeMembers
  {
    forall i | 0 <= i < |Table| ensures Table[i].name != "constructor" {
      assert |Table[i].name| <= 6;
    }
  }

  // ---------------------------------------------------------------- handlers

  const BookUsage: string := "Usage: " + Table[1].usage + "\nExample: /book 19/2 13:00-14:00"
  const CancelUsage: string := "Usage: " + Table[3].usage + "\nCheck IDs with /list."

  /** A reply that mentions nobody. */
  function Plain(text: string): Reply {
    Reply(text, [])
  }

  function Confirmed(entry: string): string {
    "Booking confirmed: " + entry
  }

  function RemovedText(booking: string): string {
    "Booking removed: " + booking
  }

  function NotFoundText(n: int): string {
    "Booking ID #" + (IntToString(n) + " not found.")
  }

  /** `msg.key.participant || msg.key.remoteJid`: the empty string stands for a missing
      participant. */
  function Booker(conversation: string, participant: string): string {
    if participant != [] then participant else conversation
  }

  /** The reply to `/book` once its arguments were read as `entry`. */
  function BookAnswer(entry: Option<string>): Reply {
    match entry
    case None => Plain(BookUsage)
    case Some(e) => Plain(Confirmed(e))
  }

  /** The reply to `/cancel` once its argument was read as `id`. */
  function CancelAnswer(records: seq<Record>, id: Option<int>): Reply {
    match id
    case None => Plain(CancelUsage)
    case Some(n) =>
      if 1 <= n <= |records| then Plain(RemovedText(records[n - 1].booking))
      else Plain(NotFoundText(n))
  }

  /** The records after `/book` read `entry` (nothing when its arguments did not match). */
  function Booked(records: seq<Record>, entry: Option<string>, bookerJid: string, createdAt: string): seq<Record>
  {
    match entry
    case None => records
    case Some(e) => records + [Record(e, bookerJid, createdAt)]
  }

  /** The records after `/cancel` read the ID `id` (nothing when it is not a number). */
  function Cancelled(records: seq<Record>, id: Option<int>): seq<Record>
  {
    match id
    case None => records
    case Some(n) => if 1 <= n <= |records| then Without(records, n - 1) else records
  }

  /** The `/book` handler: stores the normalised entry and confirms it, or replies with
      the usage text and stores nothing. */
  method HandleBook(store: BookingStore, conversation: string, participant: string, createdAt: string, args: string)
    returns (reply: Reply)
    modifies store
    ensures reply == BookAnswer(BookEntry(args))
    ensures store.GetBookings(conversation)
         == Booked(old(store.GetBookings(conversation)), BookEntry(args), Booker(conversation, participant), createdAt)
    ensures BookEntry(args).None? ==> store.bookings == old(store.bookings)
    ensures forall c :: c != conversation ==> store.GetBookings(c) == old(store.GetBookings(c))
    ensures AllParse(old(store.GetBookings(conversation))) ==> AllParse(store.GetBookings(conversation))
  {
    var entry := BookEntry(args);
    if entry.None? {
      return Plain(BookUsage);
    }
    var bookerJid := Booker(conversation, participant);
    ghost var before := store.GetBookings(conversation);
    var _ := store.AddBooking(conversation, entry.value, bookerJid, createdAt);
    if AllParse(before) {
      EntryParses(args);
      AllParseAppend(before, Record(entry.value, bookerJid, createdAt));
    }
    reply := Plain(Confirmed(entry.value));
  }

  /** The `/cancel` handler: reads an integer from the trimmed arguments and removes the
      record at that 1-based position. */
  method HandleCancel(store: BookingStore, conversation: string, args: string) returns (reply: Reply)
    modifies store
    ensures reply == CancelAnswer(old(store.GetBookings(conversation)), ParseInt(Trim(args)))
    ensures store.GetBookings(conversation) == Cancelled(old(store.GetBookings(conversation)), ParseInt(Trim(args)))
    ensures ParseInt(Trim(args)).None? ==> store.bookings == old(store.bookings)
    ensures forall c :: c != conversation ==> store.GetBookings(c) == old(store.GetBookings(c))
    ensures AllParse(old(store.GetBookings(conversation))) ==> AllParse(store.GetBookings(conversation))
  {
    var index := ParseInt(Trim(args));
    if index.None? {
      return Plain(CancelUsage);
    }
    reply := CancelId(store, conversation, index.value);
  }

  /** The part of the `/cancel` handler after the ID was read: removes the record at
      1-based position `n` and replies with it, or says that there is none. */
  method CancelId(store: BookingStore, conversation: string, n: int) returns (reply: Reply)
    modifies store
    ensures reply == CancelAnswer(old(store.GetBookings(conversation)), Some(n))
    ensures store.GetBookings(conversation) == Cancelled(old(store.GetBookings(conversation)), Some(n))
    ensures forall c :: c != conversation ==> store.GetBookings(c) == old(store.GetBookings(c))
    ensures AllParse(old(store.GetBookings(conversation))) ==> AllParse(store.GetBookings(conversation))
  {
    ghost var before := store.GetBookings(conversation);
    var removed := store.RemoveBooking(conversation, n);
    if AllParse(before) && 1 <= n <= |before| {
      AllParseWithout(before, n - 1);
    }
    if removed.Removed? {
      reply := Plain(RemovedText(removed.record.booking));
    } else {
      reply := Plain(NotFoundText(n));
    }
  }

  /** One command's part of the help text. */
  function HelpEntry(d: Definition): string {
    "[" + (Capitalize(d.name) + ("]\n" + (d.description + ("\nUsage: " + (d.usage + "\n\n")))))
  }

  function HelpEntries(table: seq<Definition>): string {
    if table == [] then [] else HelpEntries(table[..|table| - 1]) + HelpEntry(table[|table| - 1])
  }

  const HelpBanner: string := "MusicSoc Booking Bot\n\n"

  /** The help text: the banner, then every command in table order. */
  function HelpText(): string {
    HelpBanner + HelpEntries(Table)
  }

  /** The loop over `Object.entries(COMMANDS)` that builds the help text. */
  method BuildHelp(banner: string, table: seq<Definition>) returns (helpText: string)
    ensures helpText == banner + HelpEntries(table)
  {
    helpText := banner;
    var i := 0;
    while i < |table|
      invariant 0 <= i <= |table|
      invariant helpText == banner + HelpEntries(table[..i])
    {
      HelpEntriesStep(banner, table, i);
      helpText := helpText + HelpEntry(table[i]);
      i := i + 1;
    }
    assert table[..i] == table;
  }

  lemma HelpEntriesStep(banner: string, table: seq<Definition>, i: nat)
    requires i < |table|
    ensures banner + HelpEntries(table[..i + 1]) == (banner + HelpEntries(table[..i])) + HelpEntry(table[i])
  {
    var prefix := table[..i + 1];
    assert prefix[..i] == table[..i] && prefix[i] == table[i];
  }

  /** The `/help` handler. */
  method HandleHelp() returns (reply: Reply)
    ensures reply == Plain(HelpText())
  {
    var helpText := BuildHelp(HelpBanner, Table);
    reply := Plain(helpText);
  }

  // ---------------------------------------------------------------- handleCommand

  /** What running `command` on `args` does in a conversation whose records are
      `records`: the reply and the conversation's records afterwards. */
  function Effect(records: seq<Record>, conversation: string, participant: string,
                  createdAt: string, year: int, command: Command, args: string): (Reply, seq<Record>)
    requires AllParse(records)
  {
    (Answer(records, year, command, args), After(records, conversation, participant, createdAt, command, args))
  }

  /** The reply `command` gives on `args`. `/cancel` reads its ID with `parseInt`, on
      which trimming first makes no difference (`ParseIntTrim`). */
  function Answer(records: seq<Record>, year: int, command: Command, args: string): Reply
    requires AllParse(records)
  {
    match command
    case Ping => Plain("Pong.")
    case Book => BookAnswer(BookEntry(args))
    case List => ListView(records, year)
    case Cancel => CancelAnswer(records, ParseInt(args))
    case Help => Plain(HelpText())
  }

  /** The conversation's records after `command` ran on `args`. As in `Answer`, the
      `/cancel` ID is read without trimming first, which `ParseIntTrim` shows is the same. */
  function After(records: seq<Record>, conversation: string, participant: string,
                 createdAt: string, command: Command, args: string): (r: seq<Record>)
    ensures command == Book ==> r == Booked(records, BookEntry(args), Booker(conversation, participant), createdAt)
    ensures command == Cancel ==> r == Cancelled(records, ParseInt(args))
    ensures command != Book && command != Cancel ==> r == records
  {
    match command
    case Book => Booked(records, BookEntry(args), Booker(conversation, participant), createdAt)
    case Cancel => Cancelled(records, ParseInt(args))
    case _ => records
  }

  /** What one message does in a conversation: the reply, if any, and the records
      afterwards. */
  function Outcome(records: seq<Record>, conversation: string, participant: string,
                   createdAt: string, year: int, text: string): (Option<Reply>, seq<Record>)
    requires AllParse(records)
  {
    match Resolve(text)
    case Run(d, args) =>
      var (reply, after) := Effect(records, conversation, participant, createdAt, year, d.command, args);
      (Some(reply), after)
    case _ => (None, records)
  }

  /** A command's handler on the conversation's records. */
  method RunCommand(store: BookingStore, conversation: string, participant: string,
                    createdAt: string, year: int, command: Command, args: string)
    returns (reply: Reply)
    modifies store
    requires AllParse(store.GetBookings(conversation))
    ensures AllParse(store.GetBookings(conversation))
    ensures (reply, store.GetBookings(conversation))
         == Effect(old(store.GetBookings(conversation)), conversation, participant, createdAt, year, command, args)
    ensures forall c :: c != conversation ==> store.GetBookings(c) == old(store.GetBookings(c))
  {
    match command {
    case Ping =>
      reply := Plain("Pong.");
    case Book =>
      reply := HandleBook(store, conversation, participant, createdAt, args);
    case List =>
      reply := ListBookings(store.GetBookings(conversation), year);
    case Cancel =>
      ParseIntTrim(args);
      reply := HandleCancel(store, conversation, args);
    case Help =>
      reply := HandleHelp();
    }
  }

  /** `handleCommand` on one message of a conversation. `year` is the current year and
      `createdAt` the current timestamp. */
  method HandleCommand(store: BookingStore, conversation: string, participant: string,
                       createdAt: string, year: int, text: string)
    returns (reply: Option<Reply>)
    modifies store
    requires AllParse(store.GetBookings(conversation))
    ensures AllParse(store.GetBookings(conversation))
    ensures (reply, store.GetBookings(conversation))
         == Outcome(old(store.GetBookings(conversation)), conversation, participant, createdAt, year, text)
    ensures forall c :: c != conversation ==> store.GetBookings(c) == old(store.GetBookings(c))
    ensures Resolve(text) == Ignore ==> store.bookings == old(store.bookings)
  {
    var action := Resolve(text);
    if !action.Run? {
      return None;
    }
    var r := RunCommand(store, conversation, participant, createdAt, year, action.definition.command, action.args);
    reply := Some(r);
  }

  /** Only `/book` and `/cancel` change the records: `/book` by appending one record,
      `/cancel` by taking one away. */
  lemma EffectChanges(records: seq<Record>, conversation: string, participant: string,
                      createdAt: string, command: Command, args: string)
    ensures var after := After(records, conversation, participant, createdAt, command, args);
      || after == records
      || (command == Book && after[..|records|] == records && |after| == |records| + 1)
      || (command == Cancel && |after| + 1 == |records| && multiset(after) < multiset(records))
  {
    match command
    case Book => BookAfterChanges(records, conversation, participant, createdAt, args);
    case Cancel => CancelAfterChanges(records, conversation, participant, createdAt, args);
    case _ =>
  }

  lemma BookAfterChanges(records: seq<Record>, conversation: string, participant: string,
                         createdAt: string, args: string)
    ensures var after := After(records, conversation, participant, createdAt, Book, args);
      after == records || (after[..|records|] == records && |after| == |records| + 1)
  {
    BookChanges(records, BookEntry(args), Booker(conversation, participant), createdAt);
  }

  lemma CancelAfterChanges(records: seq<Record>, conversation: string, participant: string,
                           createdAt: string, args: string)
    ensures var after := After(records, conversation, participant, createdAt, Cancel, args);
      after == records || (|after| + 1 == |records| && multiset(after) < multiset(records))
  {
    CancelChanges(records, ParseInt(args));
  }

  lemma BookChanges(records: seq<Record>, entry: Option<string>, bookerJid: string, createdAt: string)
    ensures var after := Booked(records, entry, bookerJid, createdAt);
      after == records || (after[..|records|] == records && |after| == |records| + 1)
  {
    if entry.Some? {
      var after := records + [Record(entry.value, bookerJid, createdAt)];
      assert after[..|records|] == records;
    }
  }

  lemma CancelChanges(records: seq<Record>, id: Option<int>)
    ensures var after := Cancelled(records, id);
      after == records || (|after| + 1 == |records| && multiset(after) < multiset(records))
  {
    if id.Some? && 1 <= id.value <= |records| {
      var after := Without(records, id.value - 1);
      assert multiset(after) + multiset{records[id.value - 1]} == multiset(records);
    }
  }

  /** Every command leaves a conversation whose entries `/list` can read still readable. */
  lemma EffectKeepsEntriesReadable(records: seq<Record>, conversation: string, participant: string,
                                   createdAt: string, command: Command, args: string)
    requires AllParse(records)
    ensures AllParse(After(records, conversation, participant, createdAt, command, args))
  {
    match command
    case Book => BookKeepsReadable(records, conversation, participant, createdAt, args);
    case Cancel => CancelKeepsReadable(records, conversation, participant, createdAt, args);
    case _ =>
  }

  lemma BookKeepsReadable(records: seq<Record>, conversation: string, participant: string,
                          createdAt: string, args: string)
    requires AllParse(records)
    ensures AllParse(After(records, conversation, participant, createdAt, Book, args))
  {
    var entry := BookEntry(args);
    var bookerJid := Booker(conversation, participant);
    assert entry.Some? ==> ParseFields(entry.value).Some? by {
      if entry.Some? {
        EntryParses(args);
      }
    }
    BookedReadable(records, entry, bookerJid, createdAt);
  }

  lemma CancelKeepsReadable(records: seq<Record>, conversation: string, participant: string,
                            createdAt: string, args: string)
    requires AllParse(records)
    ensures AllParse(After(records, conversation, participant, createdAt, Cancel, args))
  {
    CancelledReadable(records, ParseInt(args));
  }

  lemma BookedReadable(records: seq<Record>, entry: Option<string>, bookerJid: string, createdAt: string)
    requires AllParse(records)
    requires entry.Some? ==> ParseFields(entry.value).Some?
    ensures AllParse(Booked(records, entry, bookerJid, createdAt))
  {
    if entry.Some? {
      AllParseAppend(records, Record(entry.value, bookerJid, createdAt));
    }
  }

  lemma CancelledReadable(records: seq<Record>, id: Option<int>)
    requires AllParse(records)
    ensures AllParse(Cancelled(records, id))
  {
    if id.Some? && 1 <= id.value <= |records| {
      AllParseWithout(records, id.value - 1);
    }
  }

  /** Every entry `/book` stores can be read back by `/list`. */
  lemma EntryParses(args: string)
    requires BookEntry(args).Some?
    ensures ParseFields(BookEntry(args).value).Some?
  {
    BookEntryMatches(args);
    var a := MatchArgs(Trim(args)).value;
    ParseEntry(a, 0);
  }

  lemma AllParseAppend(records: seq<Record>, r: Record)
    requires AllParse(records) && ParseFields(r.booking).Some?
    ensures AllParse(records + [r])
  {
  }

  lemma AllParseWithout(records: seq<Record>, k: nat)
    requires AllParse(records) && k < |records|
    ensures AllParse(Without(records, k))
  {
  }

  /** The ID `/list` shows next to an entry, given to `/cancel` with any white space
      around it, names the record that entry was read from. */
  lemma CancelByShownId(records: seq<Record>, year: int, e: Item, w1: string, w2: string)
    requires AllParse(records) && e in Displayed(records, year)
    requires AllSpace(w1) && AllSpace(w2)
    ensures ParseInt(Trim(w1 + NatToString(e.index) + w2)) == Some(e.index)
    ensures 1 <= e.index <= |records|
    ensures ParseBooking(records[e.index - 1].booking, year) == Some(e.booking)
  {
    ShownIdParses(e.index, w1, w2);
    ListIdOf(records, year, e);
  }

  lemma ShownIdParses(n: nat, w1: string, w2: string)
    requires AllSpace(w1) && AllSpace(w2)
    ensures ParseInt(Trim(w1 + NatToString(n) + w2)) == Some(n)
  {
    var d := NatToString(n);
    assert !IsSpace(d[0]) && !IsSpace(d[|d| - 1]);
    TrimOf(w1, d, w2);
    ParseIntOfDisplay(n, []);
    assert d + [] == d;
  }
}
