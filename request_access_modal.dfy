/**
 * The hash-routed request-access modal: whether it is open, the element that
 * opened it (to return focus to), and the browser's session history, whose
 * last entry is the current location.
 */
module RequestAccessModal {
  import opened Wrappers

  /** The fragment, as the location reports it (with its leading `#`), that routes to the modal. */
  const ModalHash := "#request-access"

  /** A location: path, query (with its `?`, or empty) and fragment (with its `#`, or empty). */
  datatype Url = Url(path: string, search: string, hash: string)

  type ElementId = string

  /** The element a click handler is attached to, when it is an HTML element. */
  datatype EventTarget = Element(id: ElementId) | NonElement

  datatype MouseEvent = MouseEvent(currentTarget: EventTarget, defaultPrevented: bool)

  /** The stored trigger after opening with `event`: replaced only by an element target. */
  function TriggerAfterOpen(trigger: Option<ElementId>, event: Option<MouseEvent>): (t: Option<ElementId>)
    ensures event.Some? && event.value.currentTarget.Element? ==> t == Some(event.value.currentTarget.id)
    ensures event.None? || event.value.currentTarget.NonElement? ==> t == trigger
  {
    match event
    case Some(MouseEvent(Element(id), _)) => Some(id)
    case _ => trigger
  }

  /** A history whose current entry is `current`, with every earlier entry untouched. */
  predicate Replaced(before: seq<Url>, after: seq<Url>, current: Url) {
    && |before| > 0
    && |after| == |before|
    && after[..|after| - 1] == before[..|before| - 1]
    && after[|after| - 1] == current
  }

  class Modal {
    var isOpen: bool
    /** The element to return focus to on close. */
    var trigger: Option<ElementId>
    var history: seq<Url>
    /** The hashchange listener is registered. */
    var hashListening: bool

    ghost predicate Valid()
      reads this
    {
      |history| > 0
    }

    function Location(): Url
      reads this
      requires Valid()
    {
      history[|history| - 1]
    }

    /** Mounting at `initial`: closed, no trigger, the listener registered, then one hash check. */
    constructor (initial: Url)
      ensures Valid() && history == [initial]
      ensures isOpen <==> initial.hash == ModalHash
      ensures trigger == None && hashListening
    {
      isOpen := false;
      trigger := None;
      history := [initial];
      hashListening := true;
      new;
      CheckHash();
    }

    /** Opens the modal when the current fragment routes to it; never closes it. */
    method CheckHash()
      requires Valid()
      modifies this`isOpen
      ensures isOpen <==> old(isOpen) || Location().hash == ModalHash
    {
      if Location().hash == ModalHash {
        isOpen := true;
      }
    }

    /**
     * A navigation that changes only the fragment of the current location: a
     * new history entry, then a hash check if the listener is still registered.
     */
    method HashChanged(hash: string)
      requires Valid() && hash != Location().hash
      modifies this`history, this`isOpen
      ensures Valid() && history == old(history) + [old(Location()).(hash := hash)]
      ensures isOpen <==> old(isOpen) || (hashListening && hash == ModalHash)
    {
      history := history + [Location().(hash := hash)];
      if hashListening {
        CheckHash();
      }
    }

    /** Unmounting removes the hashchange listener. */
    method Unmount()
      modifies this`hashListening
      ensures !hashListening
    {
      hashListening := false;
    }

    /**
     * Remembers an element trigger, pushes one history entry for the current
     * page with the modal fragment (a push fires no hashchange) and opens.
     */
    method OpenModal(event: Option<MouseEvent>)
      requires Valid()
      modifies this`trigger, this`history, this`isOpen
      ensures Valid() && isOpen
      ensures trigger == TriggerAfterOpen(old(trigger), event)
      ensures history == old(history) + [old(Location()).(hash := ModalHash)]
      ensures Location().hash == ModalHash
    {
      if event.Some? && event.value.currentTarget.Element? {
        trigger := Some(event.value.currentTarget.id);
      }
      history := history + [Url(Location().path, Location().search, ModalHash)];
      isOpen := true;
    }

    /**
     * Replaces the current entry by the same path and query without a
     * fragment, closes, and returns the element that receives focus, which is
     * the stored trigger if any; the trigger is then cleared.
     */
    method CloseModal() returns (focused: Option<ElementId>)
      requires Valid()
      modifies this`history, this`isOpen, this`trigger
      ensures Valid() && !isOpen && trigger == None
      ensures focused == old(trigger)
      ensures Replaced(old(history), history, Url(old(Location()).path, old(Location()).search, ""))
    {
      var current := Location();
      history := history[..|history| - 1] + [Url(current.path, current.search, "")];
      isOpen := false;
      focused := None;
      if trigger.Some? {
        focused := trigger;
        trigger := None;
      }
    }

    /** A click on a request-access link or button: cancels the default navigation, then opens with that event. */
    method HandleRequestAccessClick(event: MouseEvent) returns (handled: MouseEvent)
      requires Valid()
      modifies this`trigger, this`history, this`isOpen
      ensures handled == event.(defaultPrevented := true)
      ensures Valid() && isOpen
      ensures trigger == TriggerAfterOpen(old(trigger), Some(handled))
      ensures history == old(history) + [old(Location()).(hash := ModalHash)]
    {
      handled := event.(defaultPrevented := true);
      OpenModal(Some(handled));
    }

    /**
     * Clicking a request-access element and then closing the modal: one new
     * history entry for the same page without a fragment, the entries before
     * it untouched, the modal closed and focus returned to the clicked element.
     */
    method ClickThenClose(id: ElementId) returns (focused: Option<ElementId>)
      requires Valid()
      modifies this`trigger, this`history, this`isOpen
      ensures Valid() && !isOpen && trigger == None
      ensures focused == Some(id)
      ensures |history| == |old(history)| + 1 && history[..|old(history)|] == old(history)
      ensures Location() == old(Location()).(hash := "")
    {
      var _ := HandleRequestAccessClick(MouseEvent(Element(id), false));
      focused := CloseModal();
    }
  }
}
