/** The content script (content.js), one per page: it tracks the link under
    the pointer, debounces a hover with a timer, and tells the background
    page what to highlight. Timers are an explicit pending slot that a
    `timeout` event fires; every handler returns the messages it sends. */
module Content {
  import opened Wrappers

  /** An anchor element: its identity and its `href`. */
  datatype Link = Link(id: int, href: string)

  /** A scheduled hover timer: the link it will make current, with the delay
      it was scheduled with. */
  datatype Timer = Timer(link: Link, delayMs: int)

  /** The messages sent to the background page. */
  datatype Outgoing =
    | HighlightTabRequest(url: string)
    | RemoveHighlightRequest(url: string)
    | UnhighlightAllRequest

  /** What the content script's `runtime.onMessage` listener receives. */
  datatype ContentMessage =
    | SettingsUpdated(hoverDelay: Option<int>, unhighlightOnWindowLeave: Option<bool>)
    | OtherMessage

  const DefaultHoverDelay: int := 50

  /** A pointer target worth a hover: an anchor with a non-empty `href`
      starting with `http`; the emptiness test is implied by the prefix test. */
  predicate Hoverable(target: Option<Link>): (r: bool)
    ensures r <==> target.Some? && "http" <= target.value.href
  {
    target.Some? && target.value.href != "" && "http" <= target.value.href
  }

  /** `link === currentTarget`: the same element. */
  predicate IsCurrent(current: Option<Link>, link: Link)
  {
    current.Some? && current.value.id == link.id
  }

  class HoverObserver {
    var currentTarget: Option<Link>
    /** `hoverTimeout` while it has not fired nor been cleared. */
    var pending: Option<Timer>
    var hoverDelay: int
    var unhighlightOnWindowLeave: bool

    constructor ()
      ensures currentTarget == None && pending == None
      ensures hoverDelay == DefaultHoverDelay && unhighlightOnWindowLeave
    {
      currentTarget := None;
      pending := None;
      hoverDelay := DefaultHoverDelay;
      unhighlightOnWindowLeave := true;
    }

    /** The initial `storage.local.get` resolves (content.js:11-14). */
    method SettingsLoaded(delay: int, leave: bool)
      modifies this
      ensures hoverDelay == delay && unhighlightOnWindowLeave == leave
      ensures currentTarget == old(currentTarget) && pending == old(pending)
    {
      hoverDelay := delay;
      unhighlightOnWindowLeave := leave;
    }

    /** `storage.onChanged` (content.js:17-26): a key present among the
        local changes overwrites its cached value; nothing else changes. */
    method OnStorageChanged(area: string, delayChange: Option<int>, leaveChange: Option<bool>)
      modifies this
      ensures area == "local" && delayChange.Some? ==> hoverDelay == delayChange.value
      ensures !(area == "local" && delayChange.Some?) ==> hoverDelay == old(hoverDelay)
      ensures area == "local" && leaveChange.Some? ==> unhighlightOnWindowLeave == leaveChange.value
      ensures !(area == "local" && leaveChange.Some?) ==> unhighlightOnWindowLeave == old(unhighlightOnWindowLeave)
      ensures currentTarget == old(currentTarget) && pending == old(pending)
    {
      if area == "local" {
        if delayChange.Some? {
          hoverDelay := delayChange.value;
        }
        if leaveChange.Some? {
          unhighlightOnWindowLeave := leaveChange.value;
        }
      }
    }

    /** `runtime.onMessage` (content.js:29-34): `SETTINGS_UPDATED` overwrites
        the cached values it defines. */
    method OnMessage(msg: ContentMessage)
      modifies this
      ensures msg.SettingsUpdated? && msg.hoverDelay.Some? ==> hoverDelay == msg.hoverDelay.value
      ensures !(msg.SettingsUpdated? && msg.hoverDelay.Some?) ==> hoverDelay == old(hoverDelay)
      ensures msg.SettingsUpdated? && msg.unhighlightOnWindowLeave.Some? ==>
                unhighlightOnWindowLeave == msg.unhighlightOnWindowLeave.value
      ensures !(msg.SettingsUpdated? && msg.unhighlightOnWindowLeave.Some?) ==>
                unhighlightOnWindowLeave == old(unhighlightOnWindowLeave)
      ensures currentTarget == old(currentTarget) && pending == old(pending)
    {
      match msg
      case SettingsUpdated(delay, leave) =>
        if delay.Some? {
          hoverDelay := delay.value;
        }
        if leave.Some? {
          unhighlightOnWindowLeave := leave.value;
        }
      case OtherMessage =>
    }

    /** `mouseover` (content.js:37-62). `target` is `e.target.closest('a')`. */
    method OnMouseOver(target: Option<Link>) returns (sent: seq<Outgoing>)
      modifies this
      ensures hoverDelay == old(hoverDelay) && unhighlightOnWindowLeave == old(unhighlightOnWindowLeave)
      ensures currentTarget == old(currentTarget)
      ensures !Hoverable(target) || IsCurrent(old(currentTarget), target.value) ==>
                sent == [] && pending == old(pending)
      ensures Hoverable(target) && !IsCurrent(old(currentTarget), target.value) ==>
                pending == Some(Timer(target.value, hoverDelay)) &&
                sent == if old(currentTarget).Some? then [RemoveHighlightRequest(old(currentTarget).value.href)] else []
    {
      sent := [];
      if target.None? || target.value.href == "" {
        return;
      }
      var link := target.value;
      if !("http" <= link.href) {
        return;
      }
      if IsCurrent(currentTarget, link) {
        return;
      }
      pending := None;
      if currentTarget.Some? && currentTarget.value.id != link.id {
        sent := [RemoveHighlightRequest(currentTarget.value.href)];
      }
      pending := Some(Timer(link, hoverDelay));
    }

    /** The hover timer fires (content.js:57-60): its link becomes current and
        one highlight request is sent for it. A cleared timer never fires. */
    method OnTimerFired() returns (sent: seq<Outgoing>)
      modifies this
      ensures hoverDelay == old(hoverDelay) && unhighlightOnWindowLeave == old(unhighlightOnWindowLeave)
      ensures pending == None
      ensures old(pending).Some? ==>
                currentTarget == Some(old(pending).value.link) &&
                sent == [HighlightTabRequest(old(pending).value.link.href)]
      ensures old(pending).None? ==> currentTarget == old(currentTarget) && sent == []
    {
      sent := [];
      if pending.Some? {
        var link := pending.value.link;
        pending := None;
        currentTarget := Some(link);
        sent := [HighlightTabRequest(link.href)];
      }
    }

    /** `mouseout`: both listeners run, in the order they were added. The
        first (content.js:64-76) clears the timer on any anchor and drops the
        current link unless the pointer moved inside it; the second
        (content.js:85-91) asks for a full clear when the pointer left with no
        related target. `related` is `None` without a related target, else
        whether that target lies inside the anchor. */
    method OnMouseOut(target: Option<Link>, related: Option<bool>) returns (sent: seq<Outgoing>)
      modifies this
      ensures hoverDelay == old(hoverDelay) && unhighlightOnWindowLeave == old(unhighlightOnWindowLeave)
      ensures target.Some? ==> pending == None
      ensures target.None? ==> pending == old(pending)
      ensures var drops := target.Some? && IsCurrent(old(currentTarget), target.value) && related != Some(true);
              var leave := if unhighlightOnWindowLeave && related.None? then [UnhighlightAllRequest] else [];
              (drops ==> currentTarget == None && sent == [RemoveHighlightRequest(target.value.href)] + leave) &&
              (!drops ==> currentTarget == old(currentTarget) && sent == leave)
    {
      sent := [];
      if target.Some? {
        var link := target.value;
        pending := None;
        if IsCurrent(currentTarget, link) {
          if related != Some(true) {
            sent := [RemoveHighlightRequest(link.href)];
            currentTarget := None;
          }
        }
      }
      if unhighlightOnWindowLeave && related.None? {
        sent := sent + [UnhighlightAllRequest];
      }
    }

    /** `mouseleave` on the document (content.js:79-83). */
    method OnDocumentMouseLeave() returns (sent: seq<Outgoing>)
      ensures unhighlightOnWindowLeave ==> sent == [UnhighlightAllRequest]
      ensures !unhighlightOnWindowLeave ==> sent == []
    {
      sent := if unhighlightOnWindowLeave then [UnhighlightAllRequest] else [];
    }

    /** `blur` on the window (content.js:93-97). */
    method OnWindowBlur() returns (sent: seq<Outgoing>)
      ensures unhighlightOnWindowLeave ==> sent == [UnhighlightAllRequest]
      ensures !unhighlightOnWindowLeave ==> sent == []
    {
      sent := [];
      if unhighlightOnWindowLeave {
        sent := [UnhighlightAllRequest];
      }
    }
  }

  /** Hovering back onto the current link does not clear a timer scheduled
      for another link, so that link becomes current although the pointer has
      returned to the first one. The sequence has no `mouseout` between the
      hovers: a `mouseout` from either link would clear the timer (see
      `LeaveAndReturn`). */
  method ReturnToCurrentLink(a: Link, b: Link) returns (sent: seq<Outgoing>, current: Option<Link>)
    requires a.id != b.id && Hoverable(Some(a)) && Hoverable(Some(b))
    ensures current == Some(b)
    ensures sent == [HighlightTabRequest(a.href), RemoveHighlightRequest(a.href), HighlightTabRequest(b.href)]
  {
    var o := new HoverObserver();
    var s1 := o.OnMouseOver(Some(a));
    var s2 := o.OnTimerFired();
    var s3 := o.OnMouseOver(Some(b));
    var s4 := o.OnMouseOver(Some(a));
    var s5 := o.OnTimerFired();
    sent := s1 + s2 + s3 + s4 + s5;
    current := o.currentTarget;
  }

  /** The same pointer path with the `mouseout` events a browser sends when
      the pointer leaves each link for plain page content: leaving the
      current link removes its highlight, leaving the other link clears its
      timer, and returning highlights the first link again. */
  method LeaveAndReturn(a: Link, b: Link) returns (sent: seq<Outgoing>, current: Option<Link>)
    requires a.id != b.id && Hoverable(Some(a)) && Hoverable(Some(b))
    ensures current == Some(a)
    ensures sent == [HighlightTabRequest(a.href), RemoveHighlightRequest(a.href), HighlightTabRequest(a.href)]
  {
    var o := new HoverObserver();
    var s1 := o.OnMouseOver(Some(a));
    var s2 := o.OnTimerFired();
    var s3 := o.OnMouseOut(Some(a), Some(false));
    var s4 := o.OnMouseOver(Some(b));
    var s5 := o.OnMouseOut(Some(b), Some(false));
    var s6 := o.OnMouseOver(Some(a));
    var s7 := o.OnTimerFired();
    sent := s1 + s2 + s3 + s4 + s5 + s6 + s7;
    current := o.currentTarget;
  }
}
