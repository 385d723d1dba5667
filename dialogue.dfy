/**
 The dialogue controller (`ConversationalAgent`): it owns the catalog, which
 it only reads, and the ledger object, which a booking turn updates. Each
 method runs the source's statements step by step and is proved to compute
 the corresponding function of module Intent.
 */
module Dialogue {
  import opened Wrappers
  import opened Text
  import opened Inventory
  import opened Ledger
  import opened TimeExpr
  import opened Intent

  class ConversationalAgent {
    /** The catalog is assigned once and never changed, so every lookup gives the same answer. */
    const knowledge: Catalog
    const booking: BookingAgent

    /** Builds the agent over an already loaded catalog and the bookings file as it is found. */
    constructor (catalog: Catalog, bookingsFile: Store)
      ensures knowledge == catalog && fresh(booking)
      ensures booking.store == (if bookingsFile.Absent? then Holds([]) else bookingsFile)
      ensures booking.attempts == 0
    {
      knowledge := catalog;
      booking := new BookingAgent(bookingsFile);
    }

    /** `process_input`: one utterance in, one reply out; only a booking turn touches the ledger,
        and it calls `create_booking` once exactly when a model was resolved. */
    method ProcessInput(text: string, createdAt: string, fault: IoFault) returns (reply: string)
      modifies booking
      ensures Turn(reply, booking.store) == Respond(knowledge, old(booking.store), text, createdAt, fault)
      ensures booking.attempts == old(booking.attempts)
                + (if AsksToBook(Lower(text)) && SelectModel(knowledge, Lower(text)) != "" then 1 else 0)
    {
      var t := Lower(text);
      if AsksToBook(t) {
        reply := HandleBookingIntent(t, createdAt, fault);
      } else if AsksWhatIsAvailable(t) {
        reply := InfoReply(knowledge, t);
      } else if Greets(t) {
        reply := GreetingReply;
      } else if TakesLeave(t) {
        reply := FarewellReply;
      } else {
        reply := FallbackReply;
      }
    }

    /** `_handle_booking_intent`: resolve the model, read date and time, and book when a model was found. */
    method HandleBookingIntent(t: string, createdAt: string, fault: IoFault) returns (reply: string)
      modifies booking
      ensures Turn(reply, booking.store) == BookingTurn(knowledge, old(booking.store), t, createdAt, fault)
      ensures booking.attempts == old(booking.attempts) + (if SelectModel(knowledge, t) != "" then 1 else 0)
    {
      var selectedModel := ResolveModel(t);
      var date := ExtractDate(t);
      var time := ExtractTime(t);
      if selectedModel != "" {
        var success := booking.CreateBooking(selectedModel, date, time, createdAt, fault);
        if success {
          reply := Confirmation(selectedModel, date, time);
        } else {
          reply := ApologyReply;
        }
      } else {
        reply := ClarifyReply;
      }
    }

    /** The two loops of `_handle_booking_intent` that set `selected_model` ("" for None): first the
        categories the text mentions, then, only if that chose nothing, every record by name. */
    method ResolveModel(t: string) returns (selectedModel: string)
      ensures selectedModel == SelectModel(knowledge, t)
    {
      var categories := Categories(knowledge);
      selectedModel := ChooseByCategory(t, categories);
      if selectedModel == "" {
        selectedModel := ChooseByName(t, categories);
      }
    }

    /** The first loop: the first mentioned category that has records gives its first record. */
    method ChooseByCategory(t: string, categories: seq<string>) returns (selectedModel: string)
      requires categories == Categories(knowledge)
      ensures selectedModel == CategoryChoice(knowledge, t)
    {
      selectedModel := "";
      var i := 0;
      while i < |categories|
        invariant 0 <= i <= |categories|
        invariant forall j :: 0 <= j < i ==> !Pickable(knowledge, t, categories[j])
      {
        if Contains(t, Lower(categories[i])) {
          var models := ModelsByCategory(knowledge, categories[i]);
          if |models| > 0 {
            CategoryChoiceStopsAt(knowledge, t, i);
            selectedModel := models[0].model;
            return;
          }
        }
        CategoryLoopStep(knowledge, t, categories, i);
        i := i + 1;
      }
      CategoryChoiceFindsNone(knowledge, t);
    }

    /** The second loop: every category in order, and in each the first record the text names; its
        `break` leaves only the inner loop, so a later category's choice replaces an earlier one. */
    method ChooseByName(t: string, categories: seq<string>) returns (selectedModel: string)
      ensures selectedModel == FallbackPick(knowledge, categories, t)
    {
      selectedModel := "";
      var j := 0;
      while j < |categories|
        invariant 0 <= j <= |categories|
        invariant selectedModel == FallbackPick(knowledge, categories[..j], t)
      {
        var models := ModelsByCategory(knowledge, categories[j]);
        var k := 0;
        while k < |models|
          invariant 0 <= k <= |models|
          invariant forall q :: 0 <= q < k ==> !ModelMentioned(t, models[q])
        {
          if Contains(t, Lower(models[k].model)) {
            break;
          }
          k := k + 1;
        }
        FallbackLoopStep(knowledge, categories, t, j, k);
        if k < |models| {
          selectedModel := models[k].model;
        }
        j := j + 1;
      }
      assert categories[..|categories|] == categories;
    }
  }
}
