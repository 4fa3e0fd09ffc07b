/** The Android-style toast notifier of part-3/static/android_toast.js: option normalisation,
    `show`, `hide` and the inner `remove_toast`, over an abstract page that holds at most one
    toast container and the pending `setTimeout` callbacks. Timer expiry and the end of the
    fade-out animation are events the page receives from outside. */
module Toast {
  import opened Wrappers

  /** The constructor's argument: missing or falsy, some other non-object, or an object whose
      recognised fields may each be missing. `duration` is taken in whole milliseconds. */
  datatype Options =
    | NoOptions
    | NotAnObject
    | Given(duration: Option<nat>, content: Option<string>, position: Option<string>)

  /** JavaScript truthiness of an option value: a missing value, `0` and `""` are falsy. */
  predicate TruthyNumber(v: Option<nat>) {
    v.Some? && v.value != 0
  }

  predicate TruthyString(v: Option<string>) {
    v.Some? && v.value != ""
  }

  const DefaultDuration: nat := 3000
  const FadeInClass := "android_toast_fadein"
  const TopClass := "android_toast_top"
  const FadeOutClass := "android_toast_fadeout"

  function LowerChar(c: char): char {
    if 'A' <= c <= 'Z' then (c as int - 'A' as int + 'a' as int) as char else c
  }

  /** `s.toLowerCase()` on the ASCII letters; every other character is kept. */
  function ToLower(s: string): (r: string)
    ensures |r| == |s|
    ensures forall i :: 0 <= i < |s| ==> r[i] == LowerChar(s[i])
  {
    if s == [] then [] else [LowerChar(s[0])] + ToLower(s[1..])
  }

  /** Lower-casing twice is lower-casing once. */
  lemma {:induction false} ToLowerIdempotent(s: string)
    ensures ToLower(ToLower(s)) == ToLower(s)
  {
    if s != [] {
      ToLowerIdempotent(s[1..]);
      assert ToLower(s)[1..] == ToLower(s[1..]);
    }
  }

  /** The position the constructor settles on: a truthy option is lower-cased and kept when it
      is `"top"` or `"bottom"`; anything else, or no option, gives `"bottom"`. */
  function NormalizePosition(position: Option<string>): (r: string)
    ensures r == "top" || r == "bottom"
    ensures r == "top" <==> TruthyString(position) && ToLower(position.value) == "top"
  {
    if TruthyString(position) then
      var lowered := ToLower(position.value);
      if lowered == "top" || lowered == "bottom" then lowered else "bottom"
    else
      "bottom"
  }

  /** The position is case-insensitive: an option and its lower-cased form give the same result. */
  lemma PositionIgnoresCase(s: string)
    ensures NormalizePosition(Some(s)) == NormalizePosition(Some(ToLower(s)))
  {
    ToLowerIdempotent(s);
  }

  /** `"TOP"` selects the top position and `"left"` falls back to the bottom. */
  lemma PositionExamples()
    ensures NormalizePosition(Some("TOP")) == "top"
    ensures NormalizePosition(Some("left")) == "bottom"
    ensures NormalizePosition(None) == "bottom"
  {
    assert ToLower("TOP") == "top" by {
      assert ToLower("TOP")[0] == 't' && ToLower("TOP")[1] == 'o' && ToLower("TOP")[2] == 'p';
    }
    assert ToLower("left")[0] == 'l';
  }

  /** The class attribute `show` gives a new container. */
  function ShowClasses(position: string): string {
    if position == "top" then FadeInClass + " " + TopClass else FadeInClass
  }

  /** The element `#android_toast_container`: its class attribute, the content of its inner
      `#android_toast` element, and whether `hide` attached the `remove_toast` listeners. */
  datatype Container = Container(className: string, content: string, removalListeners: bool)

  /** What `hide` does to the container: `className += " android_toast_fadeout"` and the
      animation-end listeners attached. */
  function Faded(c: Container): Container {
    c.(className := c.className + " " + FadeOutClass, removalListeners := true)
  }

  /** The page as the toast sees it: the body's single toast slot, and the pending `setTimeout`
      callbacks by id, each with its delay. */
  class Page {
    var container: Option<Container>
    var timers: map<nat, nat>
    var nextTimerId: nat

    /** Every pending timer has an id below the next one to be handed out. */
    ghost predicate Valid()
      reads this
    {
      forall id :: id in timers ==> id < nextTimerId
    }

    constructor ()
      ensures Valid() && container == None && timers == map[]
    {
      container := None;
      timers := map[];
      nextTimerId := 1;
    }

    /** `clearTimeout(id)`: cancels a pending callback; `null`, or an id that already fired, is a no-op. */
    method ClearTimeout(id: Option<nat>)
      requires Valid()
      modifies this
      ensures Valid()
      ensures container == old(container) && nextTimerId == old(nextTimerId)
      ensures timers == if id.Some? then old(timers) - {id.value} else old(timers)
    {
      if id.Some? {
        timers := timers - {id.value};
      }
    }

    /** `setTimeout(callback, delay)`: registers the callback under a fresh id. */
    method SetTimeout(delay: nat) returns (id: nat)
      requires Valid()
      modifies this
      ensures Valid()
      ensures id == old(nextTimerId) && id !in old(timers)
      ensures timers == old(timers)[id := delay]
      ensures container == old(container)
    {
      id := nextTimerId;
      timers := timers[id := delay];
      nextTimerId := nextTimerId + 1;
    }

    /** `body.appendChild(container)`: only ever called on an empty slot. */
    method AppendContainer(c: Container)
      requires container.None?
      modifies this
      ensures container == Some(c)
      ensures timers == old(timers) && nextTimerId == old(nextTimerId)
    {
      container := Some(c);
    }

    /** `remove_toast`: looks the container up and detaches it; finding none it does nothing,
        so a second call after a removal is harmless. `removed` says which case ran: the source
        returns `false` when it finds nothing and `undefined` after a removal, and the event
        dispatch that calls it discards the value either way. */
    method RemoveToast() returns (removed: bool)
      modifies this
      ensures removed == old(container).Some?
      ensures container == None
      ensures timers == old(timers) && nextTimerId == old(nextTimerId)
    {
      if container.None? {
        return false;
      }
      container := None;
      removed := true;
    }

    /** The body of `hide` after its guard, minus its `clearTimeout`. */
    method FadeOut()
      requires container.Some?
      modifies this
      ensures container == Some(Faded(old(container.value)))
      ensures timers == old(timers) && nextTimerId == old(nextTimerId)
    {
      container := Some(Faded(container.value));
    }

    /** An animation-end event on the container (under any of the four listened names): each
        attached listener runs `remove_toast`. Before `hide` attached them the event does nothing. */
    method AnimationEnd()
      modifies this
      ensures old(container).Some? && old(container.value.removalListeners) ==> container == None
      ensures !(old(container).Some? && old(container.value.removalListeners)) ==> container == old(container)
      ensures timers == old(timers) && nextTimerId == old(nextTimerId)
    {
      if container.Some? && container.value.removalListeners {
        var _ := RemoveToast();
      }
    }

    /** A pending `setTimeout(this.hide, duration)` fires. The callback runs with `this` unbound,
        so its `clearTimeout(this.timeout_id)` cancels nothing; it fades out whatever container
        is present, including one that a later toast put there. */
    method TimerFires(id: nat) returns (hidden: bool)
      requires Valid() && id in timers
      modifies this
      ensures Valid()
      ensures timers == old(timers) - {id} && nextTimerId == old(nextTimerId)
      ensures hidden == old(container).Some?
      ensures container == if old(container).Some? then Some(Faded(old(container.value))) else None
    {
      timers := timers - {id};
      if container.None? {
        return false;
      }
      FadeOut();
      hidden := true;
    }
  }

  /** `Android_Toast`: one toast, with the handle of its own pending dismiss timer. */
  class AndroidToast {
    var timeoutId: Option<nat>
    var duration: nat
    var content: string
    var position: string

    /** `new Android_Toast(options)`: defaults first; a missing or non-object argument stops
        there; otherwise the recognised options are read and the toast is shown. */
    constructor (options: Options, page: Page)
      requires page.Valid()
      modifies page
      ensures page.Valid()
      ensures !options.Given? ==>
        && duration == DefaultDuration && content == "" && position == "bottom" && timeoutId == None
        && page.container == old(page.container) && page.timers == old(page.timers)
      ensures options.Given? ==>
        && duration == (if TruthyNumber(options.duration) then options.duration.value else DefaultDuration)
        && content == (if TruthyString(options.content) then options.content.value else "")
        && position == NormalizePosition(options.position)
      ensures options.Given? && content == "" ==>
        timeoutId == None && page.container == old(page.container) && page.timers == old(page.timers)
      ensures options.Given? && content != "" ==>
        && page.container == Some(Container(ShowClasses(position), content, false))
        && timeoutId == Some(old(page.nextTimerId))
        && page.timers == old(page.timers)[old(page.nextTimerId) := duration]
    {
      timeoutId := None;
      var d, c, p := DefaultDuration, "", "bottom";
      if options.Given? {
        if TruthyNumber(options.duration) {
          d := options.duration.value;
        }
        if TruthyString(options.content) {
          c := options.content.value;
        }
        p := NormalizePosition(options.position);
      }
      duration, content, position := d, c, p;
      new;
      if options.Given? {
        var _ := Show(page);
      }
    }

    /** `show`: with content, cancel this toast's pending timer, replace any container on the
        page by a new one styled for the position, and arm a timer for `duration`. */
    method Show(page: Page) returns (shown: bool)
      requires page.Valid()
      modifies this, page
      ensures page.Valid()
      ensures duration == old(duration) && content == old(content) && position == old(position)
      ensures shown <==> content != ""
      ensures !shown ==>
        && timeoutId == old(timeoutId) && page.container == old(page.container)
        && page.timers == old(page.timers) && page.nextTimerId == old(page.nextTimerId)
      ensures shown ==>
        && page.container == Some(Container(ShowClasses(position), content, false))
        && timeoutId == Some(old(page.nextTimerId))
        && old(page.nextTimerId) !in old(page.timers)
        && page.timers ==
             (if old(timeoutId).Some? then old(page.timers) - {old(timeoutId).value} else old(page.timers))
             [old(page.nextTimerId) := duration]
    {
      if content == "" {
        return false;
      }
      page.ClearTimeout(timeoutId);
      if page.container.Some? {
        var _ := page.RemoveToast();
      }
      page.AppendContainer(Container(ShowClasses(position), content, false));
      var id := page.SetTimeout(duration);
      timeoutId := Some(id);
      shown := true;
    }

    /** `hide`: with a container on the page, cancel this toast's timer, append the fade-out
        class and attach the removal listeners; the container stays until the animation ends. */
    method Hide(page: Page) returns (hidden: bool)
      requires page.Valid()
      modifies page
      ensures page.Valid() && page.nextTimerId == old(page.nextTimerId)
      ensures hidden == old(page.container).Some?
      ensures !hidden ==> page.container == old(page.container) && page.timers == old(page.timers)
      ensures hidden ==>
        && page.container == Some(Faded(old(page.container.value)))
        && page.timers == if timeoutId.Some? then old(page.timers) - {timeoutId.value} else old(page.timers)
    {
      if page.container.None? {
        return false;
      }
      page.ClearTimeout(timeoutId);
      page.FadeOut();
      hidden := true;
    }
  }

  /** Two toasts in quick succession: the first toast's timer is still pending when the second
      replaces its container, and when it fires it fades the second toast's container, before the
      second toast's own duration has elapsed. */
  method SupersededTimerFadesSuccessor() returns (c: Option<Container>)
    ensures c == Some(Faded(Container(FadeInClass, "second", false)))
  {
    var page := new Page();
    var first := new AndroidToast(Given(Some(3000), Some("first"), None), page);
    var stale := first.timeoutId.value;
    var second := new AndroidToast(Given(Some(3000), Some("second"), None), page);
    var _ := page.TimerFires(stale);
    c := page.container;
  }
}
