/**
 * `showNotification` (app.js:433-491): the document holds at most one `.notification`
 * element; each call removes every existing one and appends a fresh one to the body,
 * and, for a positive duration, schedules a dismissal that acts only while that
 * element is still attached.
 */
module Notifications {

  /** Severity names with their own background; `info` is also the fallback. */
  const BgColors: map<string, string> := map[
    "success" := "linear-gradient(135deg, #10b981, #065f46)",
    "error" := "linear-gradient(135deg, #ef4444, #991b1b)",
    "info" := "linear-gradient(135deg, #3b82f6, #1e40af)",
    "warning" := "linear-gradient(135deg, #f59e0b, #d97706)"
  ]

  const DefaultKind: string := "info"
  const DefaultDuration: int := 6000

  /** `bgColors[type] || bgColors.info`. */
  function Background(kind: string): (bg: string)
    ensures bg in BgColors.Values
    ensures kind !in BgColors ==> bg == BgColors["info"]
    ensures kind in BgColors ==> bg == BgColors[kind]
  {
    if kind in BgColors then BgColors[kind] else BgColors["info"]
  }

  /** A notification element; `handle` identifies the element object returned to the caller. */
  datatype Notification = Notification(handle: nat, message: string, kind: string, background: string)

  /** A child of the document body: page markup, or a notification element. */
  datatype Node = Markup(name: string) | Toast(note: Notification)

  /**
   * A pending timer callback. `Dismiss(h)` is the `duration` timeout, which checks
   * that `h` is still attached; `Detach(h)` is the 300 ms timeout it then schedules,
   * which calls `h.remove()`.
   */
  datatype Timer = Dismiss(handle: nat) | Detach(handle: nat)

  /** The notification element with this handle is in the body. */
  predicate Attached(body: seq<Node>, h: nat) {
    exists i :: 0 <= i < |body| && body[i].Toast? && body[i].note.handle == h
  }

  predicate NoToasts(body: seq<Node>) {
    forall i :: 0 <= i < |body| ==> body[i].Markup?
  }

  /** At most one notification element is attached. */
  predicate AtMostOneToast(body: seq<Node>) {
    forall i, j :: 0 <= i < |body| && 0 <= j < |body| && body[i].Toast? && body[j].Toast? ==> i == j
  }

  /** The body after `document.querySelectorAll('.notification').forEach(n => n.remove())`. */
  function WithoutToasts(body: seq<Node>): (r: seq<Node>)
    ensures NoToasts(r)
    ensures forall n :: n in r <==> n in body && n.Markup?
    ensures |r| <= |body|
  {
    if body == [] then []
    else
      var last := body[|body| - 1];
      WithoutToasts(body[..|body| - 1]) + (if last.Toast? then [] else [last])
  }

  /** The body after `h.remove()`: that element goes, nothing else changes. */
  function Detached(body: seq<Node>, h: nat): (r: seq<Node>)
    ensures forall n :: n in r <==> n in body && !(n.Toast? && n.note.handle == h)
    ensures !Attached(body, h) ==> r == body
  {
    if body == [] then []
    else
      var last := body[|body| - 1];
      var init := body[..|body| - 1];
      assert !Attached(body, h) ==> !Attached(init, h) by {
        if Attached(init, h) {
          var i :| 0 <= i < |init| && init[i].Toast? && init[i].note.handle == h;
          assert body[i] == init[i];
        }
      }
      Detached(init, h) + (if last.Toast? && last.note.handle == h then [] else [last])
  }

  /** Removing the notifications of a concatenation removes them from each part: the other nodes keep their order. */
  lemma {:induction false} WithoutToastsAppend(a: seq<Node>, b: seq<Node>)
    ensures WithoutToasts(a + b) == WithoutToasts(a) + WithoutToasts(b)
    decreases |b|
  {
    if b != [] {
      var n := |b| - 1;
      assert (a + b)[..|a + b| - 1] == a + b[..n];
      assert (a + b)[|a + b| - 1] == b[n];
      WithoutToastsAppend(a, b[..n]);
    } else {
      assert a + b == a;
    }
  }

  /** `remove()` of one element keeps every other node where it was, in order. */
  lemma {:induction false} DetachedAppend(a: seq<Node>, b: seq<Node>, h: nat)
    ensures Detached(a + b, h) == Detached(a, h) + Detached(b, h)
    decreases |b|
  {
    if b != [] {
      var n := |b| - 1;
      assert (a + b)[..|a + b| - 1] == a + b[..n];
      assert (a + b)[|a + b| - 1] == b[n];
      DetachedAppend(a, b[..n], h);
    } else {
      assert a + b == a;
    }
  }

  /** A body without notifications is left as it is. */
  lemma {:induction false} WithoutToastsNone(body: seq<Node>)
    requires NoToasts(body)
    ensures WithoutToasts(body) == body
  {
    if body != [] {
      var init := body[..|body| - 1];
      assert forall i :: 0 <= i < |init| ==> init[i] == body[i];
      WithoutToastsNone(init);
    }
  }

  /** Every other node keeps its number of occurrences; every notification goes. */
  lemma {:induction false} WithoutToastsCounts(body: seq<Node>)
    ensures forall n :: multiset(WithoutToasts(body))[n] == (if n.Markup? then multiset(body)[n] else 0)
  {
    if body != [] {
      var init := body[..|body| - 1];
      var last := body[|body| - 1];
      assert body == init + [last];
      WithoutToastsCounts(init);
    }
  }

  /** Every node other than the removed element keeps its number of occurrences. */
  lemma {:induction false} DetachedCounts(body: seq<Node>, h: nat)
    ensures forall n :: multiset(Detached(body, h))[n] ==
                        (if n.Toast? && n.note.handle == h then 0 else multiset(body)[n])
  {
    if body != [] {
      var init := body[..|body| - 1];
      var last := body[|body| - 1];
      assert body == init + [last];
      DetachedCounts(init, h);
    }
  }

  /** Removing elements never creates a second notification. */
  lemma DetachedKeepsAtMostOne(body: seq<Node>, h: nat)
    requires AtMostOneToast(body)
    ensures AtMostOneToast(Detached(body, h))
    ensures forall g :: Attached(Detached(body, h), g) ==> Attached(body, g) && g != h
  {
  }

  /** A body without notifications plus one appended notification holds exactly that one. */
  lemma OnlyToast(markup: seq<Node>, note: Notification)
    requires NoToasts(markup)
    ensures AtMostOneToast(markup + [Toast(note)])
    ensures forall h :: Attached(markup + [Toast(note)], h) <==> h == note.handle
  {
    var body := markup + [Toast(note)];
    assert body[|markup|] == Toast(note);
    assert forall i :: 0 <= i < |markup| ==> body[i] == markup[i];
  }

  /** The document body and the pending timer callbacks of one page. */
  class Page {
    var body: seq<Node>
    var timers: seq<Timer>
    /** The handle the next notification element gets; every element ever created has a smaller one. */
    var nextHandle: nat

    /**
     * At most one notification is attached; it and every pending timer belong to
     * elements that were already created.
     */
    ghost predicate Valid()
      reads this
    {
      AtMostOneToast(body) &&
      (forall h: nat :: Attached(body, h) ==> h < nextHandle) &&
      (forall t :: t in timers ==> t.handle < nextHandle)
    }

    /** A page whose markup holds no notification element. */
    constructor (markup: seq<string>)
      ensures Valid()
      ensures body == seq(|markup|, i requires 0 <= i < |markup| => Markup(markup[i]))
      ensures timers == [] && nextHandle == 0
    {
      body := seq(|markup|, i requires 0 <= i < |markup| => Markup(markup[i]));
      timers := [];
      nextHandle := 0;
    }

    /**
     * `showNotification(message, type, duration)`: removes every notification, appends a
     * new one with the given text and severity, and for `duration > 0` schedules its
     * dismissal. Returns the new element.
     */
    method ShowNotification(message: string, kind: string := DefaultKind, duration: int := DefaultDuration)
      returns (note: Notification)
      requires Valid()
      modifies this
      ensures Valid()
      ensures note == Notification(old(nextHandle), message, kind, Background(kind))
      ensures body == WithoutToasts(old(body)) + [Toast(note)]
      ensures forall h :: Attached(body, h) <==> h == note.handle
      ensures nextHandle == old(nextHandle) + 1
      ensures timers == old(timers) + (if duration > 0 then [Dismiss(note.handle)] else [])
      ensures forall t :: t in old(timers) ==> !Attached(body, t.handle)
    {
      var existing := body;
      var kept: seq<Node> := [];
      var i := 0;
      while i < |existing|
        invariant 0 <= i <= |existing|
        invariant kept == WithoutToasts(existing[..i])
      {
        if existing[i].Markup? {
          kept := kept + [existing[i]];
        }
        assert existing[..i + 1][..i] == existing[..i];
        i := i + 1;
      }
      assert existing[..i] == existing;

      note := Notification(nextHandle, message, kind, Background(kind));
      nextHandle := nextHandle + 1;
      body := kept + [Toast(note)];
      if duration > 0 {
        timers := timers + [Dismiss(note.handle)];
      }

      OnlyToast(kept, note);
    }

    /**
     * A pending timer callback runs. A `Dismiss` finds its element still attached and
     * schedules its `Detach`, or finds it gone and does nothing; a `Detach` removes its
     * element, which changes nothing when it is already gone.
     */
    method FireTimer(i: nat)
      requires Valid() && i < |timers|
      modifies this
      ensures Valid()
      ensures nextHandle == old(nextHandle)
      ensures old(timers[i]).Dismiss? ==>
                body == old(body) &&
                timers == old(timers[..i] + timers[i + 1..]) +
                          (if Attached(old(body), old(timers[i]).handle) then [Detach(old(timers[i]).handle)] else [])
      ensures old(timers[i]).Detach? ==>
                body == Detached(old(body), old(timers[i]).handle) &&
                timers == old(timers[..i] + timers[i + 1..])
    {
      var timer := timers[i];
      var rest := timers[..i] + timers[i + 1..];
      match timer {
        case Dismiss(h) =>
          if Attached(body, h) {
            timers := rest + [Detach(h)];
          } else {
            timers := rest;
          }
        case Detach(h) =>
          DetachedKeepsAtMostOne(body, h);
          body := Detached(body, h);
          timers := rest;
      }
    }

    /** The notification's close button: `this.parentElement.parentElement.remove()`. */
    method Close(h: nat)
      requires Valid()
      modifies this
      ensures Valid()
      ensures body == Detached(old(body), h) && !Attached(body, h)
      ensures timers == old(timers) && nextHandle == old(nextHandle)
    {
      DetachedKeepsAtMostOne(body, h);
      body := Detached(body, h);
    }
  }

  /**
   * Two notifications in a row, then the first one's dismissal fires: it finds its
   * element gone and leaves the second notification in place.
   */
  method LaterCallDisarmsEarlierDismissal(page: Page, first: string, second: string)
    returns (shown: Notification)
    requires page.Valid() && page.timers == []
    modifies page
    ensures page.Valid()
    ensures forall h :: Attached(page.body, h) <==> h == shown.handle
    ensures shown.message == second && page.timers == [Dismiss(shown.handle)]
  {
    var a := page.ShowNotification(first, "info", 3000);
    shown := page.ShowNotification(second, "info", 3000);
    assert page.timers == [Dismiss(a.handle), Dismiss(shown.handle)];
    page.FireTimer(0);
  }
}
