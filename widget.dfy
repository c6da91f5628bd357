/** The `App` component: four pieces of state (the blacklist, the text of the
    input field, the toast and the busy flag) and the events that change
    them. React's setters become field assignments, and the two `setTimeout`
    callbacks become explicit state plus a method each that a timer firing
    calls. */
module Widget {
  import opened JsText
  import opened Blacklist

  datatype Option<T> = None | Some(value: T)

  /** The toast texts, one constructor per template the component shows. */
  datatype Message =
    | Added(number: string)          // "'<n>' añadido a la lista negra."
    | AlreadyListed(number: string)  // "'<n>' ya está en la lista."
    | Removed(number: string)        // "'<n>' eliminado de la lista negra."
    | Starting                       // "Iniciando simulación de limpieza..."
    | Completed(count: nat)          // "Simulación completada. Se habrían eliminado <count> ..."

  class App {
    var blacklist: seq<string>
    var newNumber: string
    var message: Option<Message>
    var isSimulating: bool

    /** The simulation callback, if one is scheduled, with the list length
        its closure captured when the button was clicked. */
    var pendingFinish: Option<nat>
    /** The id of the live toast-expiry timer, if one is armed. */
    var expiryTimer: Option<nat>
    /** How many expiry timers have been armed so far; the next id. */
    var nextTimer: nat

    /** A toast is shown exactly when its expiry timer is armed, and the busy
        flag is set exactly when the simulation callback is pending. */
    ghost predicate Valid()
      reads this
    {
      && (message.Some? <==> expiryTimer.Some?)
      && (expiryTimer.Some? ==> expiryTimer.value < nextTimer)
      && (isSimulating <==> pendingFinish.Some?)
    }

    /** First render, with the list read back from local storage. */
    constructor (stored: seq<string>)
      ensures Valid()
      ensures blacklist == stored && newNumber == [] && message == None && !isSimulating
      ensures pendingFinish == None && expiryTimer == None && nextTimer == 0
    {
      blacklist := stored;
      newNumber := [];
      message := None;
      isSimulating := false;
      pendingFinish := None;
      expiryTimer := None;
      nextTimer := 0;
    }

    /** The simulate button is enabled. */
    predicate SimulateEnabled(): (r: bool)
      reads this
      ensures r <==> !(isSimulating || |blacklist| == 0)
      ensures r ==> |blacklist| >= 1
    {
      !isSimulating && |blacklist| != 0
    }

    /** `setMessage(Some(m))` followed by the effect that watches `message`:
        React skips the update when the text is unchanged, so the running
        timer keeps running; otherwise the old timer is cancelled and a fresh
        one is armed. */
    twostate predicate Posted(m: Message)
      reads this
    {
      && message == Some(m)
      && if old(message) == Some(m) then
           expiryTimer == old(expiryTimer) && nextTimer == old(nextTimer)
         else
           expiryTimer == Some(old(nextTimer)) && nextTimer == old(nextTimer) + 1
    }

    method SetMessage(m: Message)
      requires Valid()
      modifies this`message, this`expiryTimer, this`nextTimer
      ensures Valid() && Posted(m)
    {
      if message != Some(m) {
        message := Some(m);
        expiryTimer := Some(nextTimer);
        nextTimer := nextTimer + 1;
      }
    }

    /** The input field's `onChange`. */
    method TypeNumber(text: string)
      requires Valid()
      modifies this`newNumber
      ensures Valid() && newNumber == text
    {
      newNumber := text;
    }

    /** `handleAddNumber`: the trimmed input is inserted and the list
        re-sorted when it is non-empty and not yet listed; a listed value
        only produces a warning naming it; anything else (a blank input)
        changes nothing. */
    method AddNumber()
      requires Valid()
      modifies this
      ensures Valid()
      ensures isSimulating == old(isSimulating) && pendingFinish == old(pendingFinish)
      ensures var t := Trim(old(newNumber));
        if t != [] && t !in old(blacklist) then
          && blacklist == Sort(old(blacklist) + [t])
          && newNumber == []
          && Posted(Added(t))
        else if t in old(blacklist) then
          && blacklist == old(blacklist)
          && newNumber == old(newNumber)
          && Posted(AlreadyListed(t))
        else
          && blacklist == old(blacklist)
          && newNumber == old(newNumber)
          && message == old(message)
          && expiryTimer == old(expiryTimer)
          && nextTimer == old(nextTimer)
      ensures Trim(old(newNumber)) in blacklist || Trim(old(newNumber)) == []
      ensures blacklist != old(blacklist) ==> Sorted(blacklist)
      ensures Sorted(old(blacklist)) ==> Sorted(blacklist)
      ensures Distinct(old(blacklist)) ==> Distinct(blacklist)
    {
      var trimmed := Trim(newNumber);
      if trimmed != [] && trimmed !in blacklist {
        Accept(trimmed);
      } else if trimmed in blacklist {
        SetMessage(AlreadyListed(trimmed));
      }
    }

    /** The accepting branch of `handleAddNumber`: re-sort with the new
        number, clear the field, confirm. */
    method Accept(t: string)
      requires Valid() && t !in blacklist
      modifies this`blacklist, this`newNumber, this`message, this`expiryTimer, this`nextTimer
      ensures Valid()
      ensures blacklist == Sort(old(blacklist) + [t]) && newNumber == [] && Posted(Added(t))
      ensures t in blacklist && Sorted(blacklist)
      ensures Distinct(old(blacklist)) ==> Distinct(blacklist)
    {
      AddContents(blacklist, t);
      if Distinct(blacklist) {
        AddDistinct(blacklist, t);
      }
      blacklist := Sort(blacklist + [t]);
      newNumber := [];
      SetMessage(Added(t));
    }

    /** `handleRemoveNumber`: every occurrence of exactly `number` goes, the
        rest keep their order, and the confirmation is shown whether or not
        `number` was listed. */
    method RemoveNumber(number: string)
      requires Valid()
      modifies this
      ensures Valid()
      ensures blacklist == Without(old(blacklist), number)
      ensures number !in blacklist
      ensures number !in old(blacklist) ==> blacklist == old(blacklist)
      ensures Posted(Removed(number))
      ensures newNumber == old(newNumber)
      ensures isSimulating == old(isSimulating) && pendingFinish == old(pendingFinish)
      ensures Sorted(old(blacklist)) ==> Sorted(blacklist)
      ensures Distinct(old(blacklist)) ==> Distinct(blacklist)
    {
      ghost var before := blacklist;
      if Sorted(before) {
        WithoutSorted(before, number);
      }
      if Distinct(before) {
        WithoutDistinct(before, number);
      }
      blacklist := Without(blacklist, number);
      SetMessage(Removed(number));
    }

    /** A click on the simulate button. A disabled button (busy, or nothing
        listed) ignores the click; otherwise the busy flag is set, "starting"
        is shown and the summary callback is scheduled with the current list
        length. */
    method ClickSimulate() returns (started: bool)
      requires Valid()
      modifies this
      ensures Valid()
      ensures started <==> old(SimulateEnabled())
      ensures started <==> !old(isSimulating) && old(blacklist) != []
      ensures started ==> isSimulating && pendingFinish == Some(|old(blacklist)|) && Posted(Starting)
      ensures !started ==> isSimulating == old(isSimulating) && pendingFinish == old(pendingFinish)
                           && message == old(message) && expiryTimer == old(expiryTimer)
                           && nextTimer == old(nextTimer)
      ensures blacklist == old(blacklist) && newNumber == old(newNumber)
    {
      started := SimulateEnabled();
      if started {
        isSimulating, pendingFinish := true, Some(|blacklist|);
        SetMessage(Starting);
      }
    }

    /** The simulation callback fires 2500 ms after the click: the busy flag
        is cleared and the summary reports the length captured at the click,
        whatever the list holds now. */
    method FinishSimulation()
      requires Valid() && pendingFinish.Some?
      modifies this
      ensures Valid()
      ensures !isSimulating && pendingFinish == None
      ensures Posted(Completed(old(pendingFinish.value)))
      ensures blacklist == old(blacklist) && newNumber == old(newNumber)
    {
      var count := pendingFinish.value;
      isSimulating := false;
      pendingFinish := None;
      SetMessage(Completed(count));
    }

    /** Expiry timer `id` fires 3000 ms after it was armed. Only the live
        timer clears the toast; a timer the effect cleanup cancelled (any
        older id) has no effect, so it never clears a newer message. */
    method ExpireMessage(id: nat)
      requires Valid() && id < nextTimer
      modifies this
      ensures Valid()
      ensures if old(expiryTimer) == Some(id) then message == None && expiryTimer == None
              else message == old(message) && expiryTimer == old(expiryTimer)
      ensures nextTimer == old(nextTimer)
      ensures blacklist == old(blacklist) && newNumber == old(newNumber)
      ensures isSimulating == old(isSimulating) && pendingFinish == old(pendingFinish)
    {
      if expiryTimer == Some(id) {
        message := None;
        expiryTimer := None;
      }
    }
  }

  /** From an empty list, an add lists the trimmed number, clears the
      field and confirms. */
  method FirstAddSession(input: string)
    requires Trim(input) != []
  {
    var app := new App([]);
    var t := Trim(input);
    app.TypeNumber(input);
    assert Trim(app.newNumber) !in app.blacklist;
    app.AddNumber();
    assert [] + [t] == [t];
    SortSorted([t]);
    assert app.blacklist == [t] && app.newNumber == [];
    assert app.message == Some(Added(t));
  }

  /** Adding a listed number again, even with padding around it, is
      rejected with a warning and leaves the list and the field as they
      were. */
  method DuplicateAddSession(input: string)
    requires Trim(input) != []
  {
    var t := Trim(input);
    var app := new App([t]);
    app.TypeNumber(input);
    assert Trim(app.newNumber) in app.blacklist;
    app.AddNumber();
    assert app.blacklist == [t] && app.newNumber == input;
    assert app.message == Some(AlreadyListed(t));
  }

  /** A number that sorts before the listed one lands in front of it. */
  method AddInFrontSession(listed: string, input: string)
    requires Trim(input) != [] && Less(Trim(input), listed)
  {
    var app := new App([listed]);
    var t := Trim(input);
    app.TypeNumber(input);
    assert Trim(app.newNumber) !in app.blacklist by { LessIrreflexive(t); }
    app.AddNumber();
    assert Sorted([t, listed]);
    SortedUnique(Sort([listed] + [t]), [t, listed]);
    assert app.blacklist == [t, listed] && app.message == Some(Added(t));
  }

  /** Removals, one of an unlisted value, and the toast timers: a cancelled
      timer does not clear the newer toast, and posting the same text again
      keeps the timer already running. */
  method RemoveSession(listed: string, other: string, unlisted: string)
    requires listed != other && unlisted != listed && unlisted != other
  {
    var app := new App([other, listed]);
    app.RemoveNumber(listed);
    assert app.blacklist == [other];
    var first := app.expiryTimer.value;

    app.RemoveNumber(unlisted);
    assert app.blacklist == [other];
    var second := app.expiryTimer.value;
    assert first != second;

    app.RemoveNumber(unlisted);
    assert app.expiryTimer == Some(second);

    app.ExpireMessage(first);
    assert app.message == Some(Removed(unlisted));
    app.ExpireMessage(second);
    assert app.message == None;
  }

  /** The simulation reports the length at the click even though the list
      grows while it runs, and a second click while busy is ignored. */
  method SimulationSession(listed: string, input: string)
    requires Trim(input) != [] && Trim(input) != listed
  {
    var app := new App([listed]);
    var started := app.ClickSimulate();
    assert started && app.isSimulating;
    started := app.ClickSimulate();
    assert !started && app.blacklist == [listed];

    app.TypeNumber(input);
    assert Trim(app.newNumber) !in app.blacklist;
    app.AddNumber();
    assert |app.blacklist| == 2;

    app.FinishSimulation();
    assert !app.isSimulating && app.message == Some(Completed(1));
  }
}
