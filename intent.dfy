/**
 The rule-based part of `ConversationalAgent`, as values: the intent a
 lower-cased utterance is given, the reply to an inventory question, which
 model a booking request names, its date and time, and the whole turn
 (`Respond`) as a function from utterance and ledger store to reply and new
 store. The class in module Dialogue runs the same steps imperatively and is
 proved to compute `Respond`.
 */
module Intent {
  import opened Wrappers
  import opened Text
  import opened Inventory
  import opened Ledger
  import opened TimeExpr

  datatype Kind = BookingIntent | InfoIntent | GreetingIntent | FarewellIntent | UnknownIntent

  const GreetingReply := "Hello! I can help you book a test drive. What kind of car are you interested in?"
  const FarewellReply := "Goodbye! Have a great day."
  const FallbackReply := "I'm sorry, I didn't quite catch that. You can ask me to book a test drive or list available cars."
  const ClarifyReply := "Which car model would you like to book? We have SUVs and Sedans."
  const ApologyReply := "I'm sorry, I encountered an error saving your booking."

  /** The reply to a booking that was saved. */
  function Confirmation(model: string, date: string, time: string): string
  {
    "Great! I have booked a test drive for the " + model + " for " + date + " at " + time + "."
  }

  /* ---------------------------------------------------------------- intent */

  predicate AsksToBook(t: string)
  {
    Contains(t, "book") || Contains(t, "schedule") || Contains(t, "test drive")
  }

  predicate AsksWhatIsAvailable(t: string)
  {
    Contains(t, "available") || Contains(t, "what cars") || Contains(t, "show me")
  }

  /** Note that "hi" is a plain substring test: "this" and "which" greet too. */
  predicate Greets(t: string)
  {
    Contains(t, "hello") || Contains(t, "hi")
  }

  predicate TakesLeave(t: string)
  {
    Contains(t, "exit") || Contains(t, "bye") || Contains(t, "quit")
  }

  /** The dispatch of `process_input`: booking words win over everything, then inventory questions,
      then greetings, then farewells. */
  function Classify(t: string): (k: Kind)
    ensures k == BookingIntent <==> AsksToBook(t)
    ensures k == InfoIntent <==> !AsksToBook(t) && AsksWhatIsAvailable(t)
    ensures k == GreetingIntent <==> !AsksToBook(t) && !AsksWhatIsAvailable(t) && Greets(t)
    ensures k == FarewellIntent <==> !AsksToBook(t) && !AsksWhatIsAvailable(t) && !Greets(t) && TakesLeave(t)
    ensures k == UnknownIntent <==> !AsksToBook(t) && !AsksWhatIsAvailable(t) && !Greets(t) && !TakesLeave(t)
  {
    if AsksToBook(t) then BookingIntent
    else if AsksWhatIsAvailable(t) then InfoIntent
    else if Greets(t) then GreetingIntent
    else if TakesLeave(t) then FarewellIntent
    else UnknownIntent
  }

  /* ------------------------------------------------------- inventory reply */

  /** The text mentions a name when the name, lower-cased, is a substring of the text. */
  predicate Mentions(t: string, name: string)
  {
    Contains(t, Lower(name))
  }

  /** Index of the first name that `t` mentions. */
  function FirstMentioned(names: seq<string>, t: string): (r: Option<nat>)
    ensures r.Some? ==> r.value < |names| && Mentions(t, names[r.value])
    ensures r.Some? ==> forall j {:trigger Mentions(t, names[j])} :: 0 <= j < r.value ==> !Mentions(t, names[j])
    ensures r.None? ==> forall j {:trigger Mentions(t, names[j])} :: 0 <= j < |names| ==> !Mentions(t, names[j])
  {
    if names == [] then None
    else if Mentions(t, names[0]) then Some(0)
    else match FirstMentioned(names[1..], t)
      case None => None
      case Some(k) => Some(k + 1)
  }

  /** The model names of a list of records, in the same order. */
  function ModelNames(ms: seq<CarModel>): seq<string>
  {
    seq(|ms|, k requires 0 <= k < |ms| => ms[k].model)
  }

  /** `_handle_info_intent`: the model names of the first category the text mentions, or else the
      list of all categories with a question back. */
  function InfoReply(c: Catalog, t: string): string
  {
    var names := Categories(c);
    match FirstMentioned(names, t)
    case Some(i) =>
      "We have the following " + names[i] + "s available: " + Join(ModelNames(ModelsByCategory(c, names[i])), ", ") + "."
    case None =>
      "We have the following categories: " + Join(names, ", ") + ". Which one are you interested in?"
  }

  /** The first category `t` mentions is also the first with its lower-cased name, so looking its
      name up again returns that very category's list. */
  lemma {:induction false} FirstMentionedLooksUpItself(c: Catalog, t: string, i: nat)
    requires FirstMentioned(Categories(c), t) == Some(i)
    ensures ModelsByCategory(c, c.entries[i].name) == c.entries[i].models
  {
    var name := c.entries[i].name;
    assert NameIs(c.entries[i], name);
    forall j | 0 <= j < i ensures !NameIs(c.entries[j], name) {
      assert !Mentions(t, Categories(c)[j]);
    }
  }

  /** An inventory question that mentions a category gets the model names of the first category it
      mentions, in stored order; otherwise it gets every category name, in stored order. */
  lemma InfoReplyListsFirstMentioned(c: Catalog, t: string)
    ensures FirstMentioned(Categories(c), t).Some? ==>
              var i := FirstMentioned(Categories(c), t).value;
              InfoReply(c, t) == "We have the following " + c.entries[i].name + "s available: "
                                 + Join(ModelNames(c.entries[i].models), ", ") + "."
    ensures FirstMentioned(Categories(c), t).None? ==>
              InfoReply(c, t) == "We have the following categories: " + Join(Categories(c), ", ")
                                 + ". Which one are you interested in?"
  {
    if FirstMentioned(Categories(c), t).Some? {
      FirstMentionedLooksUpItself(c, t, FirstMentioned(Categories(c), t).value);
    }
  }

  /** Every model of the mentioned category appears in the reply. */
  lemma InfoReplyNamesEveryModel(c: Catalog, t: string, i: nat, k: nat)
    requires FirstMentioned(Categories(c), t) == Some(i)
    requires k < |c.entries[i].models|
    ensures Contains(InfoReply(c, t), c.entries[i].models[k].model)
  {
    InfoReplyListsFirstMentioned(c, t);
    var names := ModelNames(c.entries[i].models);
    JoinContainsParts(names, ", ", k);
    ContainsWithin("We have the following " + c.entries[i].name + "s available: ", Join(names, ", "), ".", names[k]);
  }

  /** When no category is mentioned, every category name appears in the reply. */
  lemma InfoReplyNamesEveryCategory(c: Catalog, t: string, i: nat)
    requires FirstMentioned(Categories(c), t).None?
    requires i < |c.entries|
    ensures Contains(InfoReply(c, t), c.entries[i].name)
  {
    var names := Categories(c);
    JoinContainsParts(names, ", ", i);
    ContainsWithin("We have the following categories: ", Join(names, ", "), ". Which one are you interested in?", names[i]);
  }

  /* ------------------------------------------------------- model selection */

  /** The test of the category loop: the category is mentioned and its lookup is non-empty. */
  predicate Pickable(c: Catalog, t: string, name: string)
  {
    Mentions(t, name) && ModelsByCategory(c, name) != []
  }

  /** Index of the category the first loop of `_handle_booking_intent` stops at. */
  function CategoryPick(c: Catalog, names: seq<string>, t: string): (r: Option<nat>)
    ensures r.Some? ==> r.value < |names| && Pickable(c, t, names[r.value])
    ensures r.Some? ==> forall j {:trigger Pickable(c, t, names[j])} :: 0 <= j < r.value ==> !Pickable(c, t, names[j])
    ensures r.None? ==> forall j {:trigger Pickable(c, t, names[j])} :: 0 <= j < |names| ==> !Pickable(c, t, names[j])
  {
    if names == [] then None
    else if Pickable(c, t, names[0]) then Some(0)
    else match CategoryPick(c, names[1..], t)
      case None => None
      case Some(k) => Some(k + 1)
  }

  /** The category loop stops at the first pickable category and chooses that category's first record. */
  lemma CategoryChoiceStopsAt(c: Catalog, t: string, i: nat)
    requires i < |c.entries| && Pickable(c, t, Categories(c)[i])
    requires forall j :: 0 <= j < i ==> !Pickable(c, t, Categories(c)[j])
    ensures CategoryChoice(c, t) == ModelsByCategory(c, Categories(c)[i])[0].model
  {
    var r := CategoryPick(c, Categories(c), t);
    assert r.Some?;
    assert !(r.value < i);
    assert !(i < r.value);
  }

  /** One more category passed over by the category loop. */
  lemma CategoryLoopStep(c: Catalog, t: string, names: seq<string>, i: nat)
    requires i < |names|
    requires forall j :: 0 <= j < i ==> !Pickable(c, t, names[j])
    requires !Contains(t, Lower(names[i])) || ModelsByCategory(c, names[i]) == []
    ensures forall j :: 0 <= j < i + 1 ==> !Pickable(c, t, names[j])
  {
  }

  /** With no pickable category, the category loop runs to the end without choosing. */
  lemma CategoryChoiceFindsNone(c: Catalog, t: string)
    requires forall j :: 0 <= j < |c.entries| ==> !Pickable(c, t, Categories(c)[j])
    ensures CategoryChoice(c, t) == ""
  {
  }

  /** The text mentions a record when it mentions the record's model name. */
  predicate ModelMentioned(t: string, m: CarModel)
  {
    Contains(t, Lower(m.model))
  }

  /** Index at which the inner loop over one category's records breaks. */
  function FirstModelMentioned(ms: seq<CarModel>, t: string): (r: Option<nat>)
    ensures r.Some? ==> r.value < |ms| && ModelMentioned(t, ms[r.value])
    ensures r.Some? ==> forall k {:trigger ModelMentioned(t, ms[k])} :: 0 <= k < r.value ==> !ModelMentioned(t, ms[k])
    ensures r.None? ==> forall k {:trigger ModelMentioned(t, ms[k])} :: 0 <= k < |ms| ==> !ModelMentioned(t, ms[k])
  {
    if ms == [] then None
    else if ModelMentioned(t, ms[0]) then Some(0)
    else match FirstModelMentioned(ms[1..], t)
      case None => None
      case Some(k) => Some(k + 1)
  }

  /** The value the second loop of `_handle_booking_intent` leaves in `selected_model` after scanning
      `names`, starting from a falsy value: its `break` leaves only the inner loop, so each category
      with a mentioned record overwrites what an earlier one chose. */
  function FallbackPick(c: Catalog, names: seq<string>, t: string): string
    decreases |names|
  {
    if names == [] then ""
    else
      var ms := ModelsByCategory(c, names[|names| - 1]);
      match FirstModelMentioned(ms, t)
      case Some(k) => ms[k].model
      case None => FallbackPick(c, names[..|names| - 1], t)
  }

  /** One more category scanned by the model-name loop: the inner loop stopped at record k, or ran
      off the end (k == |ms|), and only a stop replaces the value so far. */
  lemma FallbackLoopStep(c: Catalog, names: seq<string>, t: string, j: nat, k: nat)
    requires j < |names|
    requires k <= |ModelsByCategory(c, names[j])|
    requires forall q :: 0 <= q < k ==> !ModelMentioned(t, ModelsByCategory(c, names[j])[q])
    requires k < |ModelsByCategory(c, names[j])| ==> ModelMentioned(t, ModelsByCategory(c, names[j])[k])
    ensures FallbackPick(c, names[..j + 1], t)
            == if k < |ModelsByCategory(c, names[j])| then ModelsByCategory(c, names[j])[k].model
               else FallbackPick(c, names[..j], t)
  {
    var ms := ModelsByCategory(c, names[j]);
    assert names[..j + 1][..j] == names[..j];
    assert names[..j + 1][j] == names[j];
    if k < |ms| {
      assert FirstModelMentioned(ms, t) == Some(k);
    } else {
      assert FirstModelMentioned(ms, t) == None;
    }
  }

  /** The model chosen by the first loop, or "" when it chooses none. */
  function CategoryChoice(c: Catalog, t: string): string
  {
    var names := Categories(c);
    match CategoryPick(c, names, t)
    case Some(i) => ModelsByCategory(c, names[i])[0].model
    case None => ""
  }

  /** `selected_model` after both loops. Python's None and "" are both falsy and are tested only for
      truth, so "" stands for "no model". */
  function SelectModel(c: Catalog, t: string): string
  {
    var picked := CategoryChoice(c, t);
    if picked != "" then picked else FallbackPick(c, Categories(c), t)
  }

  /** The category the first loop stops at is the first with its lower-cased name, so the model it
      chooses is that category's own first record. */
  lemma {:induction false} CategoryChoiceIsOwnFirstModel(c: Catalog, t: string, i: nat)
    requires CategoryPick(c, Categories(c), t) == Some(i)
    ensures c.entries[i].models != [] && CategoryChoice(c, t) == c.entries[i].models[0].model
  {
    var names := Categories(c);
    var name := c.entries[i].name;
    assert NameIs(c.entries[i], name);
    forall j | 0 <= j < i ensures !NameIs(c.entries[j], name) {
      assert !Pickable(c, t, names[j]);
      if NameIs(c.entries[j], name) {
        SameLowerSameModels(c, names[j], name);
      }
    }
  }

  /** Category names that differ even ignoring case, as keys of a real dataset do. */
  ghost predicate DistinctNames(c: Catalog)
  {
    forall i, j :: 0 <= i < j < |c.entries| ==> Lower(c.entries[i].name) != Lower(c.entries[j].name)
  }

  lemma LooksUpItself(c: Catalog, i: nat)
    requires DistinctNames(c) && i < |c.entries|
    ensures ModelsByCategory(c, c.entries[i].name) == c.entries[i].models
  {
    assert NameIs(c.entries[i], c.entries[i].name);
  }

  /** With distinct names: when some mentioned category has records, the model chosen is the first
      record of the first such category in catalog order; model-name matching is not consulted. */
  lemma {:induction false} MentionedCategoryDecides(c: Catalog, t: string, i: nat)
    requires DistinctNames(c)
    requires i < |c.entries| && Mentions(t, c.entries[i].name) && c.entries[i].models != []
    requires forall j :: 0 <= j < i ==> !Mentions(t, c.entries[j].name) || c.entries[j].models == []
    requires c.entries[i].models[0].model != ""
    ensures SelectModel(c, t) == c.entries[i].models[0].model
  {
    var names := Categories(c);
    LooksUpItself(c, i);
    assert Pickable(c, t, names[i]);
    forall j | 0 <= j < i ensures !Pickable(c, t, names[j]) {
      LooksUpItself(c, j);
    }
    assert CategoryPick(c, names, t) == Some(i);
  }

  /** When no mentioned category has a record, the choice falls to model names. */
  lemma NoCategoryMeansModelNames(c: Catalog, t: string)
    requires forall i :: 0 <= i < |c.entries| ==> !Pickable(c, t, c.entries[i].name)
    ensures SelectModel(c, t) == FallbackPick(c, Categories(c), t)
  {
    var names := Categories(c);
    assert forall i :: 0 <= i < |names| ==> !Pickable(c, t, names[i]);
  }

  /** The model-name loop keeps the first mentioned record of the LAST category that has one. */
  lemma {:induction false} FallbackTakesLastMatch(c: Catalog, names: seq<string>, t: string, k: nat)
    requires k < |names|
    requires FirstModelMentioned(ModelsByCategory(c, names[k]), t).Some?
    requires forall k' :: k < k' < |names| ==> FirstModelMentioned(ModelsByCategory(c, names[k']), t).None?
    ensures FallbackPick(c, names, t)
            == ModelsByCategory(c, names[k])[FirstModelMentioned(ModelsByCategory(c, names[k]), t).value].model
    decreases |names|
  {
    if k < |names| - 1 {
      var init := names[..|names| - 1];
      assert init[k] == names[k];
      forall k' | k < k' < |init| ensures FirstModelMentioned(ModelsByCategory(c, init[k']), t).None? {
        assert init[k'] == names[k'];
      }
      FallbackTakesLastMatch(c, init, t, k);
    }
  }

  /** The model-name loop chooses nothing when no record's name is mentioned. */
  lemma {:induction false} FallbackWithoutMention(c: Catalog, names: seq<string>, t: string)
    requires forall k :: 0 <= k < |names| ==> FirstModelMentioned(ModelsByCategory(c, names[k]), t).None?
    ensures FallbackPick(c, names, t) == ""
    decreases |names|
  {
    if names != [] {
      var init := names[..|names| - 1];
      forall k | 0 <= k < |init| ensures FirstModelMentioned(ModelsByCategory(c, init[k]), t).None? {
        assert init[k] == names[k];
      }
      FallbackWithoutMention(c, init, t);
    }
  }

  /* --------------------------------------------------------- date and turn */

  /** "today" when the text says so, otherwise the default "tomorrow". */
  function ExtractDate(t: string): (d: string)
    ensures d == "today" <==> Contains(t, "today")
    ensures d == "today" || d == "tomorrow"
  {
    if Contains(t, "today") then "today" else "tomorrow"
  }

  /** The outcome of one turn: the reply and the bookings file afterwards. */
  datatype Turn = Turn(reply: string, store: Store)

  /** `_handle_booking_intent`: a booking is attempted only when a model was resolved. */
  function BookingTurn(c: Catalog, store: Store, t: string, createdAt: string, fault: IoFault): Turn
  {
    var model := SelectModel(c, t);
    var date := ExtractDate(t);
    var time := ExtractTime(t);
    if model == "" then Turn(ClarifyReply, store)
    else
      var r := Create(store, model, date, time, createdAt, fault);
      Turn(if r.ok then Confirmation(model, date, time) else ApologyReply, r.store)
  }

  /** `process_input`: lower-case, classify, answer. */
  function Respond(c: Catalog, store: Store, text: string, createdAt: string, fault: IoFault): Turn
  {
    var t := Lower(text);
    match Classify(t)
    case BookingIntent => BookingTurn(c, store, t, createdAt, fault)
    case InfoIntent => Turn(InfoReply(c, t), store)
    case GreetingIntent => Turn(GreetingReply, store)
    case FarewellIntent => Turn(FarewellReply, store)
    case UnknownIntent => Turn(FallbackReply, store)
  }

  /** Each intent gets its own handler, in the order of the tests: a booking request gets the booking
      turn, an inventory question the inventory reply, a greeting or a farewell its fixed reply, and
      anything else the fallback; only the booking turn can change the bookings file. */
  lemma RespondFollowsIntent(c: Catalog, store: Store, text: string, createdAt: string, fault: IoFault)
    ensures var t := Lower(text);
            AsksToBook(t) ==> Respond(c, store, text, createdAt, fault) == BookingTurn(c, store, t, createdAt, fault)
    ensures var t := Lower(text);
            !AsksToBook(t) && AsksWhatIsAvailable(t) ==> Respond(c, store, text, createdAt, fault) == Turn(InfoReply(c, t), store)
    ensures var t := Lower(text);
            !AsksToBook(t) && !AsksWhatIsAvailable(t) && Greets(t) ==>
              Respond(c, store, text, createdAt, fault) == Turn(GreetingReply, store)
    ensures var t := Lower(text);
            !AsksToBook(t) && !AsksWhatIsAvailable(t) && !Greets(t) && TakesLeave(t) ==>
              Respond(c, store, text, createdAt, fault) == Turn(FarewellReply, store)
    ensures var t := Lower(text);
            !AsksToBook(t) && !AsksWhatIsAvailable(t) && !Greets(t) && !TakesLeave(t) ==>
              Respond(c, store, text, createdAt, fault) == Turn(FallbackReply, store)
  {
  }

  /** The confirmation names the model, date and time that were booked. */
  lemma ConfirmationNamesBooking(model: string, date: string, time: string)
    ensures Contains(Confirmation(model, date, time), model)
    ensures Contains(Confirmation(model, date, time), date)
    ensures Contains(Confirmation(model, date, time), time)
  {
    var a := "Great! I have booked a test drive for the ";
    ContainsSpliced(a, model, " for " + date + " at " + time + ".");
    assert a + model + (" for " + date + " at " + time + ".") == Confirmation(model, date, time);
    ContainsSpliced(a + model + " for ", date, " at " + time + ".");
    assert a + model + " for " + date + (" at " + time + ".") == Confirmation(model, date, time);
    ContainsSpliced(a + model + " for " + date + " at ", time, ".");
  }

  /** Only a booking request that names a model can change the bookings file. */
  lemma OnlyResolvedBookingsTouchLedger(c: Catalog, store: Store, text: string, createdAt: string, fault: IoFault)
    ensures Respond(c, store, text, createdAt, fault).store != store ==>
              Classify(Lower(text)) == BookingIntent && SelectModel(c, Lower(text)) != ""
    ensures Classify(Lower(text)) == BookingIntent && SelectModel(c, Lower(text)) == "" ==>
              Respond(c, store, text, createdAt, fault) == Turn(ClarifyReply, store)
  {
  }

  /** Text with a greeting word and no booking or inventory word gets the greeting and leaves the
      ledger alone. */
  lemma GreetingTextGetsGreeting(c: Catalog, store: Store, text: string, createdAt: string, fault: IoFault)
    requires !AsksToBook(Lower(text)) && !AsksWhatIsAvailable(Lower(text)) && Greets(Lower(text))
    ensures Respond(c, store, text, createdAt, fault) == Turn(GreetingReply, store)
  {
  }

  /** Text with none of the keywords gets the fixed fallback and leaves the ledger alone. */
  lemma UnrecognisedTextGetsFallback(c: Catalog, store: Store, text: string, createdAt: string, fault: IoFault)
    requires !AsksToBook(Lower(text)) && !AsksWhatIsAvailable(Lower(text))
    requires !Greets(Lower(text)) && !TakesLeave(Lower(text))
    ensures Respond(c, store, text, createdAt, fault) == Turn(FallbackReply, store)
  {
  }

  /** A booking request that resolves a model, against a readable file and without an I/O fault,
      appends exactly one record carrying that model, date and time, and the reply names all three. */
  lemma {:induction false} ResolvedBookingIsSaved(c: Catalog, bs: seq<Booking>, text: string, createdAt: string)
    requires AsksToBook(Lower(text))
    requires SelectModel(c, Lower(text)) != ""
    ensures var t := Lower(text);
            var model, date, time := SelectModel(c, t), ExtractDate(t), ExtractTime(t);
            && Respond(c, Holds(bs), text, createdAt, NoFault)
               == Turn(Confirmation(model, date, time), Holds(bs + [Booking(|bs| + 1, model, date, time, createdAt)]))
            && Contains(Confirmation(model, date, time), model)
            && Contains(Confirmation(model, date, time), date)
            && Contains(Confirmation(model, date, time), time)
  {
    var t := Lower(text);
    ConfirmationNamesBooking(SelectModel(c, t), ExtractDate(t), ExtractTime(t));
  }

  /** The date booked is "today" exactly when the lower-cased text says so, else "tomorrow"; the time
      booked is the text of the leftmost time expression of the lower-cased text, or "10 AM" when
      there is none, so apart from the default it is a piece of the lower-cased text. */
  lemma {:induction false} BookedDateAndTime(text: string)
    ensures var t := Lower(text);
            && (ExtractDate(t) == "today" <==> Contains(t, "today"))
            && (ExtractDate(t) == "today" || ExtractDate(t) == "tomorrow")
            && (ExtractTime(t) == DefaultTime
                || exists i: nat, j: nat :: i <= j <= |t| && TimeMatch(t, i, j) && ExtractTime(t) == t[i..j])
  {
    ExtractTimeIsFirstMatch(Lower(text));
  }

  /** A resolved booking that cannot be saved gets the apology and adds no record. */
  lemma {:induction false} FailedBookingApologises(c: Catalog, store: Store, text: string, createdAt: string, fault: IoFault)
    requires AsksToBook(Lower(text))
    requires SelectModel(c, Lower(text)) != ""
    requires !store.Holds? || fault != NoFault
    ensures Respond(c, store, text, createdAt, fault).reply == ApologyReply
    ensures Respond(c, store, text, createdAt, fault).store == store
            || (store.Holds? && Respond(c, store, text, createdAt, fault).store == Unreadable)
  {
  }
}
