/**
 * The floating contact buttons (app.js:403-431): a click is classified by the
 * button's `href`, in priority order `tel:`, then `wa.me`, then `#enquiry`, and a
 * recognised one shows a three-second `info` notification.
 */
module FloatingButtons {
  import opened Wrappers
  import Notifications

  datatype Action = Call | WhatsApp | Enquiry | Untracked

  const NoticeKind: string := "info"
  const NoticeDuration: int := 3000

  /** `sub` occurs in `s` starting at index `i`. */
  predicate OccursAt(s: string, sub: string, i: nat) {
    i + |sub| <= |s| && s[i..i + |sub|] == sub
  }

  /** `String.prototype.includes`. */
  function Includes(s: string, sub: string): (r: bool)
    ensures sub == [] ==> r
    ensures r ==> |sub| <= |s|
    decreases |s|
  {
    if |sub| > |s| then false
    else if s[..|sub|] == sub then true
    else Includes(s[1..], sub)
  }

  /** `Includes` holds exactly when the text occurs somewhere. */
  lemma {:induction false} IncludesIff(s: string, sub: string)
    ensures Includes(s, sub) <==> exists i: nat :: OccursAt(s, sub, i)
    decreases |s|
  {
    if |sub| > |s| {
    } else if s[..|sub|] == sub {
      assert OccursAt(s, sub, 0);
    } else {
      IncludesIff(s[1..], sub);
      if Includes(s[1..], sub) {
        var i: nat :| OccursAt(s[1..], sub, i);
        assert s[1..][i..i + |sub|] == s[i + 1..i + 1 + |sub|];
        assert OccursAt(s, sub, i + 1);
      }
      forall i: nat | OccursAt(s, sub, i) ensures Includes(s[1..], sub) {
        assert i != 0;
        assert s[1..][i - 1..i - 1 + |sub|] == s[i..i + |sub|];
        assert OccursAt(s[1..], sub, i - 1);
      }
    }
  }

  /**
   * `this.href && this.href.includes(...)`, tried in the source's order; "" stands for no
   * href. The first marker that occurs anywhere in the href decides: `tel:` beats `wa.me`
   * beats `#enquiry`.
   */
  function Classify(href: string): (a: Action)
    ensures a == Call <==> exists i: nat :: OccursAt(href, "tel:", i)
    ensures a == WhatsApp <==>
              (!exists i: nat :: OccursAt(href, "tel:", i)) && exists i: nat :: OccursAt(href, "wa.me", i)
    ensures a == Enquiry <==>
              (!exists i: nat :: OccursAt(href, "tel:", i)) && (!exists i: nat :: OccursAt(href, "wa.me", i)) &&
              exists i: nat :: OccursAt(href, "#enquiry", i)
  {
    IncludesIff(href, "tel:");
    IncludesIff(href, "wa.me");
    IncludesIff(href, "#enquiry");
    if href != "" && Includes(href, "tel:") then Call
    else if href != "" && Includes(href, "wa.me") then WhatsApp
    else if href != "" && Includes(href, "#enquiry") then Enquiry
    else Untracked
  }

  /** The notification text for each recognised action. */
  function Message(a: Action): (m: Option<string>)
    ensures m.None? <==> a == Untracked
  {
    match a
    case Call => Some("📞 Calling Dr. Vijay Jawale...")
    case WhatsApp => Some("💬 Opening WhatsApp...")
    case Enquiry => Some("📝 Scrolling to registration form...")
    case Untracked => None
  }

  /** A click on a floating button: a recognised href shows its notification. */
  method FloatingButtonClick(href: string, page: Notifications.Page) returns (shown: Option<Notifications.Notification>)
    requires page.Valid()
    modifies page
    ensures page.Valid()
    ensures Classify(href) == Untracked ==>
              shown.None? && page.body == old(page.body) && page.timers == old(page.timers) &&
              page.nextHandle == old(page.nextHandle)
    ensures Classify(href) != Untracked ==>
              shown.Some? &&
              shown.value == Notifications.Notification(old(page.nextHandle), Message(Classify(href)).value,
                                                        NoticeKind, Notifications.Background(NoticeKind)) &&
              page.body == Notifications.WithoutToasts(old(page.body)) + [Notifications.Toast(shown.value)] &&
              page.timers == old(page.timers) + [Notifications.Dismiss(shown.value.handle)] &&
              page.nextHandle == old(page.nextHandle) + 1 &&
              (forall t :: t in old(page.timers) ==> !Notifications.Attached(page.body, t.handle))
  {
    var message := Message(Classify(href));
    if message.Some? {
      var note := page.ShowNotification(message.value, NoticeKind, NoticeDuration);
      shown := Some(note);
    } else {
      shown := None;
    }
  }
}
