# Dealership assistant: dialogue core

This project models the rule-based core of a car-dealership voice assistant in Dafny and proves
what it does. One turn takes one utterance. The `ConversationalAgent` lower-cases the utterance and
classifies its intent by ordered substring tests: booking, then inventory question, then greeting,
then farewell, else unknown. It then answers with one reply string.

A booking request resolves three entities:
- a car model, taken from the catalog by category name or by model name;
- a date, "today" or "tomorrow";
- a time, from one 12-hour-clock regular expression.

When a model was resolved, the `BookingAgent` ledger appends a record numbered by the ledger's
length plus one. The `KnowledgeAgent` catalog is an ordered, read-only map from category name to
model records, and every lookup on it ignores case.

Modules, following the program's structure:

- `Wrappers`: `Option`.
- `Text`: the string operations the source relies on:
  - `str.lower()` as `Lower`;
  - `pat in text` as `Contains`;
  - `', '.join` as `Join`.
- `Inventory`: `agents/knowledge_agent.py`, as pure functions over a `Catalog` value. The catalog is
  assigned once and never changed, so these are exact.
- `Ledger`: `agents/booking_agent.py`.
  - A specification function `Create` says what `create_booking` does to the bookings file.
  - The class `BookingAgent` performs it step by step and is proved equal to `Create`.
  - The bookings file is a `Store` value: `Absent`, `Unreadable`, or `Holds` a list of bookings.
  - An `IoFault` argument chooses which failure path, if any, one call takes.
- `TimeExpr`: the regular expression
  `\b((?:1[0-2]|0?[1-9])(?::\d{2})?\s*(?:am|pm|AM|PM))\b`, in two forms proved to agree:
  - a declarative grammar (`TimeAt`, `TimeMatch`);
  - a scanner (`MatchAt`, `Search`) that follows the expression's own order of alternatives.
- `Intent`: the pure parts of `agents/conversation_agent.py`:
  - classification and the inventory reply;
  - model selection, date and time extraction;
  - the reply texts;
  - the turn specification `Respond`.
- `Dialogue`: the class `ConversationalAgent`. Its methods run the source's loops, and each is proved
  to compute the corresponding `Intent` function.
- `Scenarios`: concrete turns, proved.

Python's `None` for "no model selected" is written as `""`. The source only ever tests
`selected_model` for truth, and both values are false, so nothing is lost.

## Where the code and its description differ

The model follows the code in each case.

- A malformed catalog file is not absorbed. `_load_data` catches only `FileNotFoundError`, so any
  other failure escapes the constructor (`Inventory.LoadData`, case `ReadError`).
- The category scan of a booking stops only at a mentioned category whose model list is non-empty.
  A mentioned category without models does not end the scan.
- The model-name fallback does not take the first mentioned model overall. Its `break` leaves only
  the inner loop. The result is the first mentioned model of the LAST category that has one
  (`Intent.FallbackTakesLastMatch`, `Scenarios.LaterCategoryWins`).
- Both loops look each category up again by name with `get_models_by_category`. For the same name
  in two spellings that differ only in case, both spellings give the first entry's list.
- "hi" is a plain substring test, so "which" or "this" is answered as a greeting
  (`Scenarios.WhichIsAGreeting`).

## Model

| member | source | states |
|---|---|---|
| Text.Lower | agents/conversation_agent.py:16 | lower-casing keeps the length and maps each character to its lower-case form (A-Z to a-z, all else unchanged) |
| Text.LowerIsIdempotent | agents/conversation_agent.py:16 | a lower-cased text has no upper-case letter left, and lower-casing it again changes nothing |
| Text.Contains | agents/conversation_agent.py:19-40 | `pat in text`: the pattern occurs at some position of the text; `FoundAt`, `ContainsSpliced` and `ContainsWithin` give occurrences and `MissingCharNotContained` rules them out |
| Text.Join | agents/conversation_agent.py:38-40 | `', '.join`: the parts in order with the separator between neighbours; `JoinContainsParts` states that every part appears in the result |
| Text.JoinContainsParts | agents/conversation_agent.py:38 | every part of `sep.join(parts)` appears in the joined string |
| Inventory.LoadData | agents/knowledge_agent.py:9-15 | a missing file gives the empty catalog; a parsed file gives its contents; any other failure raises, and only then is no catalog produced |
| Inventory.Categories | agents/knowledge_agent.py:17-19 | the category names, one per entry, in stored order |
| Inventory.FindCategory | agents/knowledge_agent.py:23-25 | the index found is the first entry whose name equals the request ignoring case; none is found only when no entry matches |
| Inventory.ModelsByCategory | agents/knowledge_agent.py:21-26 | the list of the first category whose name matches ignoring case, else []; its meaning is stated by `ModelsByCategoryIsFirstMatch` and `SameLowerSameModels` |
| Inventory.ModelsByCategoryIsFirstMatch | agents/knowledge_agent.py:21-26 | the lookup returns the model list of the first case-insensitively matching category, or [] when none matches, so it is always [] or a stored list |
| Inventory.SameLowerSameModels | agents/knowledge_agent.py:24 | two requests that agree ignoring case get the same list |
| Inventory.FindModel | agents/knowledge_agent.py:31-33 | the index found is the first record whose model name equals the request ignoring case; none only when no record matches |
| Inventory.DetailsIn | agents/knowledge_agent.py:30-34 | the nested scan, category by category and record by record; `CarDetailsIsFirstMatch` proves it equal to the first match over all records in order |
| Inventory.CarDetails | agents/knowledge_agent.py:28-34 | the nested scan over the catalog's entries; `CarDetailsIsFirstMatch` gives its meaning and `MissingFileMeansNoInventory` its result on the empty catalog |
| Inventory.CarDetailsIsFirstMatch | agents/knowledge_agent.py:28-34 | the record returned is the first match over all categories' records in order; None exactly when no record matches |
| Inventory.MissingFileMeansNoInventory | agents/knowledge_agent.py:13-34 | with the data file missing there are no categories, every category lookup is [] and every detail lookup is None |
| Ledger.Create | agents/booking_agent.py:15-39 | true exactly when the file holds a list and nothing fails; then one record is appended, earlier records are unchanged, and the new one has id old length + 1 and the arguments; on failure no record is added, and the file changes only when a write fails after truncation |
| Ledger.CreateKeepsNumbering | agents/booking_agent.py:23-24 | whatever the file system does, a ledger whose ids are 1, 2, ..., n stays so numbered |
| Ledger.RunKeepsNumbering | agents/booking_agent.py:10-34 | from an empty list, any sequence of calls leaves record i with id i + 1 |
| Ledger.RunWithoutFaults | agents/booking_agent.py:19-36 | without faults, n calls from an empty list leave exactly n records, the k-th holding the k-th call's fields under id k + 1 |
| Ledger.BookingAgent.constructor | agents/booking_agent.py:6-8 | a missing file becomes the empty list and an existing one is kept |
| Ledger.BookingAgent.EnsureFileExists | agents/booking_agent.py:10-13 | the store becomes the empty list only when it was absent; otherwise it is untouched |
| Ledger.BookingAgent.CreateBooking | agents/booking_agent.py:15-39 | the result and the new store are those of `Create` on the old store; each call counts one booking attempt |
| TimeExpr.MatchAt | agents/conversation_agent.py:75 | a match found at a position ends after it and inside the text; `MatchAtSound`, `MatchAtComplete` and `MatchAtIsTimeMatch` prove it is exactly the expression's match there |
| TimeExpr.Search | agents/conversation_agent.py:75 | a match found starts at or after the given position and ends inside the text; `SearchIsLeftmost` proves it is the leftmost one |
| TimeExpr.ExtractTime | agents/conversation_agent.py:75-76 | the text of the found match, else "10 AM"; `ExtractTimeIsFirstMatch` proves it is the leftmost match's text |
| TimeExpr.MatchAtSound | agents/conversation_agent.py:75 | whatever the scanner finds at a position is a match of the expression there |
| TimeExpr.MatchAtComplete | agents/conversation_agent.py:75 | every way of reading a window as hour, minutes, spaces and marker is the one the scanner finds, so the match at a position is unique |
| TimeExpr.MatchAtIsTimeMatch | agents/conversation_agent.py:75 | the scanner ends a match at j exactly when the grammar matches from i to j |
| TimeExpr.MatchStartsWithDigit | agents/conversation_agent.py:75 | every match starts with a digit |
| TimeExpr.NoDigitNoMatch | agents/conversation_agent.py:75 | no match starts inside a stretch without digits |
| TimeExpr.SearchIsLeftmost | agents/conversation_agent.py:75 | `re.search` finds a match that starts at or after the given position with no match starting earlier, and finds none only when there is none |
| TimeExpr.ExtractTimeIsFirstMatch | agents/conversation_agent.py:75-76 | the time is the text of the leftmost match, and "10 AM" when nothing matches |
| TimeExpr.NoTimeInsideWord | agents/conversation_agent.py:74-75 | a digit right after a letter or digit (the "4" of "rav4") never starts a time |
| Intent.Classify | agents/conversation_agent.py:19-28 | booking words win over everything, then inventory words, then greetings, then farewells, else unknown; each intent exactly under its condition |
| Intent.Respond | agents/conversation_agent.py:11-28 | lower-case, classify, answer; `RespondFollowsIntent` states the reply and new ledger for each intent, and `ProcessInput` is proved to compute it |
| Intent.RespondFollowsIntent | agents/conversation_agent.py:11-28 | a booking request gets the booking turn, an inventory question the inventory reply, a greeting or farewell its fixed reply, anything else the fallback; only the booking turn can change the ledger |
| Intent.GreetingTextGetsGreeting | agents/conversation_agent.py:23-24 | text with a greeting word and no booking or inventory word gets the greeting and leaves the ledger as it was |
| Intent.FirstMentioned | agents/conversation_agent.py:34-35 | the index of the first category whose lower-cased name appears in the text; none only when none appears |
| Intent.InfoReply | agents/conversation_agent.py:30-40 | `_handle_info_intent`; `InfoReplyListsFirstMentioned` gives its exact text in both branches, and `InfoReplyNamesEveryModel` and `InfoReplyNamesEveryCategory` state what it lists |
| Intent.FirstMentionedLooksUpItself | agents/conversation_agent.py:34-36 | looking up the first mentioned category by its own name returns that category's own list |
| Intent.InfoReplyListsFirstMentioned | agents/conversation_agent.py:30-40 | an inventory question gets the first mentioned category's model names joined by ", ", or else all category names in order |
| Intent.InfoReplyNamesEveryModel | agents/conversation_agent.py:36-38 | every model of the mentioned category appears in the reply |
| Intent.InfoReplyNamesEveryCategory | agents/conversation_agent.py:40 | when no category is mentioned, every category name appears in the reply |
| Intent.CategoryPick | agents/conversation_agent.py:48-54 | the category loop stops at the first category that is mentioned and whose lookup is non-empty; it runs to the end only when there is none |
| Intent.CategoryChoice | agents/conversation_agent.py:46-54 | the first loop's choice; `CategoryChoiceStopsAt`, `CategoryChoiceIsOwnFirstModel` and `CategoryChoiceFindsNone` state it, and `ChooseByCategory` is proved to compute it |
| Intent.CategoryChoiceFindsNone | agents/conversation_agent.py:48-54 | when no category is both mentioned and non-empty, the first loop chooses nothing |
| Intent.CategoryChoiceStopsAt | agents/conversation_agent.py:48-54 | when the category loop stops at some category, the model chosen is the first of that category's lookup |
| Intent.CategoryChoiceIsOwnFirstModel | agents/conversation_agent.py:48-54 | the category the loop stops at has records, and the model chosen is that category's own first record |
| Intent.FirstModelMentioned | agents/conversation_agent.py:61-64 | the inner loop stops at the first record whose lower-cased name appears in the text |
| Intent.FallbackPick | agents/conversation_agent.py:57-64 | the second loop's choice; `FallbackTakesLastMatch` and `FallbackWithoutMention` state it, and `ChooseByName` is proved to compute it |
| Intent.SelectModel | agents/conversation_agent.py:45-64 | `selected_model` after both loops; `MentionedCategoryDecides` and `NoCategoryMeansModelNames` state it, and `ResolveModel` is proved to compute it |
| Intent.LooksUpItself | agents/knowledge_agent.py:21-26 | when names are distinct ignoring case, looking a category up by its own name returns its own list |
| Intent.MentionedCategoryDecides | agents/conversation_agent.py:46-57 | with distinct names, a mentioned category with records decides the model: the first record of the first such category; model names are not consulted |
| Intent.NoCategoryMeansModelNames | agents/conversation_agent.py:57-64 | when no mentioned category has records, the choice is the model-name loop's result |
| Intent.FallbackTakesLastMatch | agents/conversation_agent.py:59-64 | the model-name loop keeps the first mentioned record of the last category that has one |
| Intent.FallbackWithoutMention | agents/conversation_agent.py:59-64 | the model-name loop chooses nothing when no record's name appears in the text |
| Intent.ExtractDate | agents/conversation_agent.py:67-69 | the date is "today" exactly when the text contains "today", and otherwise "tomorrow" |
| Intent.Confirmation | agents/conversation_agent.py:81 | the confirmation text; `ConfirmationNamesBooking` proves it names the model, date and time |
| Intent.BookingTurn | agents/conversation_agent.py:42-85 | the booking turn; `ResolvedBookingIsSaved`, `FailedBookingApologises` and `OnlyResolvedBookingsTouchLedger` state its outcomes, and `HandleBookingIntent` is proved to compute it |
| Intent.ConfirmationNamesBooking | agents/conversation_agent.py:81 | the confirmation contains the booked model, date and time |
| Intent.OnlyResolvedBookingsTouchLedger | agents/conversation_agent.py:78-85 | the ledger changes only on a booking request that resolved a model; a booking request without a model gets the clarifying prompt and leaves the ledger as it was |
| Intent.UnrecognisedTextGetsFallback | agents/conversation_agent.py:27-28 | text with no keyword gets the fixed fallback reply and leaves the ledger as it was |
| Intent.ResolvedBookingIsSaved | agents/conversation_agent.py:78-81 | a resolved booking against a readable file, without faults, appends exactly that model, date and time under id length + 1, and the reply names all three |
| Intent.BookedDateAndTime | agents/conversation_agent.py:67-76 | the booked date is "today" exactly when the lower-cased text says so, else "tomorrow"; the booked time is "10 AM" or the text of a match in the lower-cased input |
| Intent.FailedBookingApologises | agents/conversation_agent.py:79-83 | a resolved booking that cannot be saved gets the apology and adds no record |
| Dialogue.ConversationalAgent.constructor | agents/conversation_agent.py:6-9 | the agent holds the given catalog and a fresh ledger object over the bookings file as found, with a missing file made empty |
| Dialogue.ConversationalAgent.ProcessInput | agents/conversation_agent.py:11-28 | reply and new ledger are those of `Respond`; `create_booking` is called once exactly when the turn is a booking request that resolves a model, and a call can still leave the file unwritten when it fails |
| Dialogue.ConversationalAgent.HandleBookingIntent | agents/conversation_agent.py:42-85 | reply and new ledger are those of `BookingTurn`; `create_booking` is called once exactly when a model was resolved |
| Dialogue.ConversationalAgent.ResolveModel | agents/conversation_agent.py:45-64 | the two loops leave `selected_model` equal to `SelectModel`: the category choice if there is one, else the model-name loop's choice |
| Dialogue.ConversationalAgent.ChooseByCategory | agents/conversation_agent.py:46-54 | the category loop's result equals `CategoryChoice` |
| Dialogue.ConversationalAgent.ChooseByName | agents/conversation_agent.py:57-64 | the nested model-name loops' result equals `FallbackPick`, in which a later category overwrites an earlier one |
| Scenarios.WhichIsAGreeting | agents/conversation_agent.py:23-24 | "Which one?" is answered with the greeting, since it contains "hi" |
| Scenarios.HelloIsAGreeting | agents/conversation_agent.py:23-24 | "hello" is answered with the greeting and is not a booking |
| Scenarios.NonsenseGetsFallback | agents/conversation_agent.py:27-28 | "xyz nonsense" gets the fixed fallback and leaves the ledger unchanged |
| Scenarios.LaterCategoryWins | agents/conversation_agent.py:59-64 | for "book the cr-v or the civic" over an SUV category holding the CR-V and a later Sedan category holding the Civic, the CR-V is mentioned first but the Civic is chosen |
| Scenarios.ShowMeSuvsListsTheirModels | agents/conversation_agent.py:34-38 | "Show me SUVs" over an SUV category holding RAV4 and Highlander gets "We have the following SUVs available: RAV4, Highlander." and leaves the ledger as it was |
| Scenarios.HybridRequestTime | agents/conversation_agent.py:72-76 | in "book a rav4 hybrid for 2 pm" the "4" of "rav4" starts no time, so the time is "2 pm" |
| Scenarios.HybridBookedAtTwo | agents/conversation_agent.py:42-81 | "Book a RAV4 Hybrid for 2 PM" against a readable ledger appends exactly one record, RAV4 Hybrid for tomorrow at "2 pm" under the next id, and gets the confirmation |

## Left out

- File I/O and JSON are not modelled: opening, parsing and serialising `data/cars.json` and
  `data/bookings.json`. The catalog file is a `DataFile` value. The bookings file is a `Store`
  value, and an `IoFault` argument chooses the failure path of each call.
- Records that are not the expected JSON are not modelled:
  - non-string values;
  - a model record without a `model` key, which raises in the source when a lookup reaches it;
  - a catalog value that is not a list. An empty value such as `{}` or `""` never raises: it is
    false when tested and iterates zero times, so it acts as `[]`. Any other non-list value
    raises only when a lookup iterates over it or indexes into it;
  - a bookings file holding something other than a list of bookings. Such a file is `Unreadable`.
- `datetime.now().isoformat()` is not computed. The timestamp is the `createdAt` argument.
- The diagnostic output of `print` on a missing catalog and on a failed booking is left out.
- `Text.Lower` is ASCII only. Python's `str.lower()` also maps non-ASCII letters, and for a few
  characters it changes the string's length.
- `\w` and `\d` are ASCII only, while Python's default Unicode matching also accepts other
  letters and digits. `\s` uses Python's full whitespace list.
- `Dialogue.ConversationalAgent.constructor` takes the already loaded catalog rather than loading
  `data/cars.json` itself. Loading, and its exception on anything but a missing file, is
  `Inventory.LoadData`.
- `Ledger.BookingAgent.constructor` does not model `_ensure_file_exists` failing to create the
  file. In the source that exception leaves the constructor.
- The booking sentence of `verify_agents.py:27` is not proved word for word. Its 62 characters make
  each character-level fact costly to prove. `Scenarios.HybridBookedAtTwo` proves the same
  resolution on the shorter "Book a RAV4 Hybrid for 2 PM": a model named after its number, no
  category named, the default date, and the time "2 pm".
- The conversation's `context` dictionary is never read or written after construction, so it is
  not modelled.
- Concurrent writers are out of scope. Two processes appending at once can lose a booking or
  repeat an id, and a sequential model cannot show that.
- The voice front end, the Streamlit and command-line shells, and the language-model tool-calling
  agent are not part of this model. They only forward to the turn handler, the catalog and the
  ledger.
