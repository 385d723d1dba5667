/**
 Concrete turns. Each keyword test is settled by one character the utterance
 lacks or by the position where the keyword sits. Note that "hi" is tested as
 a plain substring, so an utterance containing "which" is answered as a greeting.
 */
module Scenarios {
  import opened Wrappers
  import opened Text
  import opened Inventory
  import opened Ledger
  import opened TimeExpr
  import opened Intent

  lemma WhichOneAsksNothingToBook(t: string)
    requires t == "which one?"
    ensures !AsksToBook(t)
  {
    MissingCharNotContained(t, "book", 0);
    MissingCharNotContained(t, "schedule", 0);
    MissingCharNotContained(t, "test drive", 0);
  }

  lemma WhichOneAsksNothingAvailable(t: string)
    requires t == "which one?"
    ensures !AsksWhatIsAvailable(t)
  {
    MissingCharNotContained(t, "available", 0);
    MissingCharNotContained(t, "what cars", 2);
    MissingCharNotContained(t, "show me", 0);
  }

  lemma WhichOneGreets(t: string)
    requires t == "which one?"
    ensures Greets(t)
  {
    assert t[1..3] == "hi";
    FoundAt(t, "hi", 1);
  }

  lemma WhichOneLowered(text: string)
    requires text == "Which one?"
    ensures Lower(text) == "which one?"
  {
    LowerIs(text, "which one?");
  }

  /** "Which one?" gets the greeting, whatever the catalog and the ledger hold. */
  lemma WhichIsAGreeting(c: Catalog, store: Store, text: string, createdAt: string, fault: IoFault)
    requires text == "Which one?"
    ensures Respond(c, store, text, createdAt, fault) == Turn(GreetingReply, store)
  {
    WhichOneLowered(text);
    WhichOneAsksNothingToBook(Lower(text));
    WhichOneAsksNothingAvailable(Lower(text));
    WhichOneGreets(Lower(text));
    GreetingTextGetsGreeting(c, store, text, createdAt, fault);
  }

  lemma HelloAsksNothing(t: string)
    requires t == "hello"
    ensures !AsksToBook(t) && !AsksWhatIsAvailable(t)
  {
    MissingCharNotContained(t, "book", 0);
    MissingCharNotContained(t, "schedule", 0);
    MissingCharNotContained(t, "test drive", 0);
    MissingCharNotContained(t, "available", 0);
    MissingCharNotContained(t, "what cars", 0);
    MissingCharNotContained(t, "show me", 0);
  }

  lemma HelloGreets(t: string)
    requires t == "hello"
    ensures Greets(t)
  {
    FoundAt(t, "hello", 0);
  }

  lemma HelloLowered(text: string)
    requires text == "hello"
    ensures Lower(text) == "hello"
  {
    LowerIs(text, "hello");
  }

  /** "hello" is a greeting, not a booking, even though it names no car. */
  lemma HelloIsAGreeting(c: Catalog, store: Store, text: string, createdAt: string, fault: IoFault)
    requires text == "hello"
    ensures Respond(c, store, text, createdAt, fault) == Turn(GreetingReply, store)
  {
    HelloLowered(text);
    HelloAsksNothing(Lower(text));
    HelloGreets(Lower(text));
    GreetingTextGetsGreeting(c, store, text, createdAt, fault);
  }

  lemma NonsenseIsNoBooking(t: string)
    requires t == "xyz nonsense"
    ensures !AsksToBook(t)
  {
    MissingCharNotContained(t, "book", 0);
    MissingCharNotContained(t, "schedule", 1);
    MissingCharNotContained(t, "test drive", 0);
  }

  lemma NonsenseIsNoQuestion(t: string)
    requires t == "xyz nonsense"
    ensures !AsksWhatIsAvailable(t)
  {
    MissingCharNotContained(t, "available", 0);
    MissingCharNotContained(t, "what cars", 0);
    MissingCharNotContained(t, "show me", 1);
  }

  lemma NonsenseIsNoGreeting(t: string)
    requires t == "xyz nonsense"
    ensures !Greets(t)
  {
    MissingCharNotContained(t, "hello", 0);
    MissingCharNotContained(t, "hi", 0);
  }

  lemma NonsenseIsNoFarewell(t: string)
    requires t == "xyz nonsense"
    ensures !TakesLeave(t)
  {
    MissingCharNotContained(t, "exit", 2);
    MissingCharNotContained(t, "bye", 0);
    MissingCharNotContained(t, "quit", 0);
  }

  lemma NonsenseLowered(text: string)
    requires text == "xyz nonsense"
    ensures Lower(text) == "xyz nonsense"
  {
    LowerIs(text, "xyz nonsense");
  }

  /** "xyz nonsense" gets the fixed fallback and leaves the ledger as it was. */
  lemma NonsenseGetsFallback(c: Catalog, store: Store, text: string, createdAt: string, fault: IoFault)
    requires text == "xyz nonsense"
    ensures Respond(c, store, text, createdAt, fault) == Turn(FallbackReply, store)
  {
    NonsenseLowered(text);
    NonsenseIsNoBooking(Lower(text));
    NonsenseIsNoQuestion(Lower(text));
    NonsenseIsNoGreeting(Lower(text));
    NonsenseIsNoFarewell(Lower(text));
    UnrecognisedTextGetsFallback(c, store, text, createdAt, fault);
  }

  /* ------------------------------------------------------------ a showroom */

  /** A showroom of two categories: "SUV" holding the given records, then "Sedan" holding the Civic. */
  function Showroom(suvs: seq<CarModel>): Catalog
  {
    Catalog([Category("SUV", suvs), Category("Sedan", [CarModel("Civic", map[])])])
  }

  lemma ShowroomNames(c: Catalog, suvs: seq<CarModel>)
    requires c == Showroom(suvs)
    ensures |Categories(c)| == 2 && Categories(c)[0] == "SUV" && Categories(c)[1] == "Sedan"
  {
  }

  lemma SuvLookup(c: Catalog, suvs: seq<CarModel>, name: string)
    requires c == Showroom(suvs) && name == "SUV"
    ensures ModelsByCategory(c, name) == suvs
  {
    assert NameIs(c.entries[0], name);
  }

  lemma SedanLookup(c: Catalog, suvs: seq<CarModel>, name: string)
    requires c == Showroom(suvs) && name == "Sedan"
    ensures ModelsByCategory(c, name) == [CarModel("Civic", map[])]
  {
    assert !NameIs(c.entries[0], name);
    assert FindCategory(c.entries, name) == Some(1);
  }

  lemma CivicLowered(name: string)
    requires name == "Civic"
    ensures Lower(name) == "civic"
  {
    LowerIs(name, "civic");
  }

  /** Both category names start with an "s", so a text without one mentions neither category and the
      category loop chooses nothing. */
  lemma NoCategoryWithoutS(c: Catalog, suvs: seq<CarModel>, t: string)
    requires c == Showroom(suvs)
    requires forall i :: 0 <= i < |t| ==> t[i] != 's'
    ensures CategoryChoice(c, t) == ""
  {
    var names := Categories(c);
    ShowroomNames(c, suvs);
    LowerIs(names[0], "suv");
    MissingCharNotContained(t, "suv", 0);
    LowerIs(names[1], "sedan");
    MissingCharNotContained(t, "sedan", 0);
    forall j | 0 <= j < |c.entries| ensures !Pickable(c, t, names[j]) {
      assert !Mentions(t, names[j]);
    }
    CategoryChoiceFindsNone(c, t);
  }

  /* ------------------------------------------------------ "Show me SUVs" */

  lemma ShowMeLowered(text: string)
    requires text == "Show me SUVs"
    ensures Lower(text) == "show me suvs"
  {
    LowerIs(text, "show me suvs");
  }

  lemma ShowMeAsksWhatIsAvailable(t: string)
    requires t == "show me suvs"
    ensures !AsksToBook(t) && AsksWhatIsAvailable(t)
  {
    MissingCharNotContained(t, "book", 0);
    MissingCharNotContained(t, "schedule", 1);
    MissingCharNotContained(t, "test drive", 0);
    assert t[0..7] == "show me";
    FoundAt(t, "show me", 0);
  }

  lemma ShowMeMentionsSuv(t: string, name: string)
    requires t == "show me suvs" && name == "SUV"
    ensures Mentions(t, name)
  {
    LowerIs(name, "suv");
    assert t[8..11] == "suv";
    FoundAt(t, "suv", 8);
  }

  lemma SuvModelsJoined(ms: seq<CarModel>)
    requires ms == [CarModel("RAV4", map[]), CarModel("Highlander", map[])]
    ensures Join(ModelNames(ms), ", ") == "RAV4, Highlander"
  {
    assert ModelNames(ms) == ["RAV4", "Highlander"];
  }

  /** "Show me SUVs" is an inventory question about the SUV category, and the reply lists exactly its
      models, in stored order; the ledger is left as it was. */
  lemma ShowMeSuvsListsTheirModels(c: Catalog, store: Store, text: string, createdAt: string, fault: IoFault)
    requires c == Showroom([CarModel("RAV4", map[]), CarModel("Highlander", map[])])
    requires text == "Show me SUVs"
    ensures Respond(c, store, text, createdAt, fault)
            == Turn("We have the following " + "SUV" + "s available: " + "RAV4, Highlander" + ".", store)
  {
    ShowMeLowered(text);
    var t := Lower(text);
    ShowMeAsksWhatIsAvailable(t);
    RespondFollowsIntent(c, store, text, createdAt, fault);
    ShowroomNames(c, [CarModel("RAV4", map[]), CarModel("Highlander", map[])]);
    ShowMeMentionsSuv(t, Categories(c)[0]);
    assert FirstMentioned(Categories(c), t) == Some(0);
    InfoReplyListsFirstMentioned(c, t);
    SuvModelsJoined(c.entries[0].models);
  }

  /* ------------------------------------------- "book the cr-v or the civic" */

  lemma CivicMentioned(t: string, ms: seq<CarModel>)
    requires t == "book the cr-v or the civic" && ms == [CarModel("Civic", map[])]
    ensures FirstModelMentioned(ms, t) == Some(0)
  {
    CivicLowered(ms[0].model);
    assert t[21..26] == "civic";
    FoundAt(t, "civic", 21);
    assert ModelMentioned(t, ms[0]);
  }

  lemma NoCategoryNamed(c: Catalog, t: string)
    requires c == Showroom([CarModel("CR-V", map[])]) && t == "book the cr-v or the civic"
    ensures CategoryChoice(c, t) == ""
  {
    NoCategoryWithoutS(c, [CarModel("CR-V", map[])], t);
  }

  lemma CivicNamedLast(c: Catalog, t: string)
    requires c == Showroom([CarModel("CR-V", map[])]) && t == "book the cr-v or the civic"
    ensures FallbackPick(c, Categories(c), t) == "Civic"
  {
    var names := Categories(c);
    ShowroomNames(c, [CarModel("CR-V", map[])]);
    SedanLookup(c, [CarModel("CR-V", map[])], names[1]);
    CivicMentioned(t, ModelsByCategory(c, names[1]));
    FallbackTakesLastMatch(c, names, t, 1);
  }

  lemma CrvNamedFirst(t: string)
    requires t == "book the cr-v or the civic"
    ensures Mentions(t, "CR-V")
  {
    assert Lower("CR-V") == "cr-v";
    assert t[9..13] == "cr-v";
    FoundAt(t, "cr-v", 9);
  }

  /** The text names the CR-V first, yet the model-name loop settles on the Civic: it belongs to the
      later category, and each category with a named model overwrites the earlier choice. */
  lemma LaterCategoryWins()
    ensures Mentions("book the cr-v or the civic", "CR-V")
    ensures SelectModel(Showroom([CarModel("CR-V", map[])]), "book the cr-v or the civic") == "Civic"
  {
    CrvNamedFirst("book the cr-v or the civic");
    NoCategoryNamed(Showroom([CarModel("CR-V", map[])]), "book the cr-v or the civic");
    CivicNamedLast(Showroom([CarModel("CR-V", map[])]), "book the cr-v or the civic");
  }

  /* ------------------------------------------ "Book a RAV4 Hybrid for 2 PM" */

  lemma HybridRequestLowered(text: string)
    requires text == "Book a RAV4 Hybrid for 2 PM"
    ensures Lower(text) == "book a rav4 hybrid for 2 pm"
  {
    LowerIs(text, "book a rav4 hybrid for 2 pm");
  }

  lemma HybridRequestAsksToBook(t: string)
    requires t == "book a rav4 hybrid for 2 pm"
    ensures AsksToBook(t) && !Contains(t, "today")
  {
    assert t[0..4] == "book";
    FoundAt(t, "book", 0);
    MissingCharNotContained(t, "today", 0);
  }

  lemma HybridLowered(name: string)
    requires name == "RAV4 Hybrid"
    ensures Lower(name) == "rav4 hybrid"
  {
    LowerIs(name, "rav4 hybrid");
  }

  lemma HybridInRequest(t: string)
    requires t == "book a rav4 hybrid for 2 pm"
    ensures Contains(t, "rav4 hybrid")
  {
    assert t[7..18] == "rav4 hybrid";
    FoundAt(t, "rav4 hybrid", 7);
  }

  lemma HybridMentioned(t: string, ms: seq<CarModel>)
    requires t == "book a rav4 hybrid for 2 pm"
    requires ms == [CarModel("RAV4 Hybrid", map[]), CarModel("Highlander", map[])]
    ensures FirstModelMentioned(ms, t) == Some(0)
  {
    HybridLowered(ms[0].model);
    HybridInRequest(t);
    assert ModelMentioned(t, ms[0]);
  }

  lemma CivicUnmentioned(t: string, ms: seq<CarModel>)
    requires t == "book a rav4 hybrid for 2 pm" && ms == [CarModel("Civic", map[])]
    ensures FirstModelMentioned(ms, t) == None
  {
    CivicLowered(ms[0].model);
    MissingCharNotContained(t, "civic", 0);
    assert !ModelMentioned(t, ms[0]);
  }

  /** Over two categories, with a record named first in the first category and none in the second,
      the model-name loop chooses the first category's named record. */
  lemma FirstOfTwoNamed(c: Catalog, names: seq<string>, t: string)
    requires |names| == 2
    requires FirstModelMentioned(ModelsByCategory(c, names[0]), t) == Some(0)
    requires FirstModelMentioned(ModelsByCategory(c, names[1]), t) == None
    ensures FallbackPick(c, names, t) == ModelsByCategory(c, names[0])[0].model
  {
    FallbackTakesLastMatch(c, names, t, 0);
  }

  lemma HybridRequestSelectsHybrid(c: Catalog, t: string)
    requires c == Showroom([CarModel("RAV4 Hybrid", map[]), CarModel("Highlander", map[])])
    requires t == "book a rav4 hybrid for 2 pm"
    ensures SelectModel(c, t) == "RAV4 Hybrid"
  {
    var suvs := [CarModel("RAV4 Hybrid", map[]), CarModel("Highlander", map[])];
    NoCategoryWithoutS(c, suvs, t);
    var names := Categories(c);
    ShowroomNames(c, suvs);
    SuvLookup(c, suvs, names[0]);
    SedanLookup(c, suvs, names[1]);
    HybridMentioned(t, ModelsByCategory(c, names[0]));
    CivicUnmentioned(t, ModelsByCategory(c, names[1]));
    FirstOfTwoNamed(c, names, t);
  }

  lemma NoTimeBeforeModelDigit(t: string)
    requires t == "book a rav4 hybrid for 2 pm"
    ensures NoMatchFrom(t, 0, 10)
  {
    NoDigitNoMatch(t, 0, 10);
  }

  lemma NoTimeAfterModelDigit(t: string)
    requires t == "book a rav4 hybrid for 2 pm"
    ensures NoMatchFrom(t, 11, 23)
  {
    NoDigitNoMatch(t, 11, 23);
  }

  lemma TimeAtTwo(t: string)
    requires t == "book a rav4 hybrid for 2 pm"
    ensures TimeMatch(t, 23, 27) && t[23..27] == "2 pm"
  {
    assert t[23..24] == "2" && t[24..24] == [] && t[24..25] == " " && t[25..27] == "pm";
    assert TimeAt(t, 23, 24, 24, 25, 27);
  }

  /** The "4" of "rav4" follows a letter and cannot start a time, so the first time is "2 pm". */
  lemma HybridRequestTime(t: string)
    requires t == "book a rav4 hybrid for 2 pm"
    ensures ExtractTime(t) == "2 pm"
  {
    NoTimeBeforeModelDigit(t);
    NoTimeAfterModelDigit(t);
    TimeAtTwo(t);
    forall i: nat, j: nat | i < 23 ensures !TimeMatch(t, i, j) {
      if i == 10 {
        NoTimeInsideWord(t, 10, j);
      }
    }
    ExtractTimeIsFirstMatch(t);
  }

  /** "Book a RAV4 Hybrid for 2 PM" against a readable ledger books the RAV4 Hybrid for the default
      date at the lower-cased "2 pm", appends exactly that record under the next id, and confirms it. */
  lemma HybridBookedAtTwo(c: Catalog, bs: seq<Booking>, text: string, createdAt: string)
    requires c == Showroom([CarModel("RAV4 Hybrid", map[]), CarModel("Highlander", map[])])
    requires text == "Book a RAV4 Hybrid for 2 PM"
    ensures Respond(c, Holds(bs), text, createdAt, NoFault)
            == Turn(Confirmation("RAV4 Hybrid", "tomorrow", "2 pm"),
                    Holds(bs + [Booking(|bs| + 1, "RAV4 Hybrid", "tomorrow", "2 pm", createdAt)]))
  {
    HybridRequestLowered(text);
    var t := Lower(text);
    HybridRequestAsksToBook(t);
    HybridRequestSelectsHybrid(c, t);
    HybridRequestTime(t);
    ResolvedBookingIsSaved(c, bs, text, createdAt);
  }
}
