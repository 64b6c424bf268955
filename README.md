# HighlightOpenedTabs — a Dafny model of the duplicate-tab coordinator and the hover observer

The browser extension highlights the tabs whose URL duplicates the active
page, or the link under the pointer. This project models its two cores:

- **The URL key** (`getNormalizedUrlHref`, module `UrlKey`, `url_key.dfy`).
  It has a YouTube special case for watch pages and for shorts. Otherwise the
  key is the host name without one leading `www.`/`new.`/`old.`/`sh.` label,
  followed by the decoded path without one trailing slash. If the URL does not
  parse, the raw string is its own key. The URL parser and
  `decodeURIComponent` are the two partial functions of a `UrlLib` value.
  Everything after parsing is string logic written out in `JsStrings`
  (`includes`, `split`, `toString`) and proved.
- **The background coordinator** (module `Background`, `background.dfy`).
  Class `Coordinator` holds `suppressionMap` as `suppression: map<int, bool>`
  and `lastTabSwitchTime`. Its handlers are `highlightDuplicatesOfActiveTab`,
  `clearAllHighlights`, every branch of `runtime.onMessage`, and the
  `onActivated`, `onUpdated` and `storage.onChanged` listeners. Each handler
  runs over one `Snapshot` of the tabs. It returns, in order, the requests it
  makes of the browser as `Effect`s: highlight, unhighlight, badge text,
  activate, focus window, and schedule a refresh. `Date.now()`, the stored
  `showCounter` and the sender's tab id are parameters. The loops of the source
  are the two `while` loops in `UnhighlightWhere` and `HighlightWhere`. Both
  loops are driven by a `Rule` and proved against `IdsWhere`.
- **The hover observer** (module `Content`, `content.dfy`). Class
  `HoverObserver` holds `currentTarget`, the pending hover timer
  (`pending: Option<Timer>`) and the cached `hoverDelay` and
  `unhighlightOnWindowLeave`. Each DOM event is one method, and each returns
  the messages it sends. A timer is a slot that `OnTimerFired` consumes and
  that a clear empties.

Points kept as the code has them:
- `lastTabSwitchTime` is never written after it is set to 0. `Valid()` records
  this, so the 500 ms guard always passes once `now > 500`.
- A tab id of 0 counts as "no anchor".
- The active-tab refresh does not look at the suppression flags.
- Both `mouseout` listeners of content.js run on every `mouseout`, in the
  order they were added.

Behaviour of the code that is easy to misread:
- The YouTube test is `hostname.includes('youtube.com')`, so any host name
  containing that text counts (`ContainingHostIsYouTube`).
- A `youtu.be/<id>` short link gets the generic key `youtu.be/<id>`. It
  never matches the watch page of the same video
  (`ShortLinkIsNotWatchPage`).
- The refresh accepts any URL that starts with `http`.
- A link `mouseout` clears the hover timer on any anchor, whether or not it
  is the tracked one.
- The suppression test reads the stored flag. Only `true` is ever stored,
  so this is the same as testing whether the tab has an entry.

## Model

| member | source | states |
|---|---|---|
| `UrlKey.ContainingHostIsYouTube` | background.js:26 | every host name containing `youtube.com` is a YouTube host, whatever surrounds it |
| `UrlKey.YouTubeKey` | background.js:25-37 | a YouTube key exists only on a YouTube host, is the watch or shorts prefix followed by a non-empty id, and never exists off `/watch` and `/shorts/` |
| `UrlKey.GenericKey` | background.js:39-53 | the stripped host name followed by the decoded path, less at most one trailing slash |
| `UrlKey.ParsedKey` | background.js:23-53 | off YouTube the generic key; a key that differs from it is a YouTube watch or shorts key |
| `UrlKey.YouTubeFallThrough` | background.js:26-53 | on a YouTube host, anything other than a watch page with a non-empty first `v` or a `/shorts/` path gets the generic key |
| `UrlKey.PlainYouTubeKey` | background.js:26-53 | such a page, on a host with no label and a plain path, keys as host + path |
| `UrlKey.ShortLinkKey` | background.js:26-53 | `youtu.be/<id>` keys as `youtu.be/<id>` |
| `UrlKey.ShortLinkIsNotWatchPage` | background.js:26-35 | `youtu.be/<id>` never gets the watch key `youtube.com/watch?v=<id>` |
| `UrlKey.Normalize` | background.js:21-57 | a URL the parser refuses is its own key; a parsed one gets `ParsedKey` |
| `UrlKey.SearchParam` | background.js:28 | `URLSearchParams.get`: `None` iff no pair has the name, else the value of the first pair with it |
| `UrlKey.StripLabel` | background.js:40 | with no `www.`/`new.`/`old.`/`sh.` prefix the host is unchanged; with one, exactly that one label is removed |
| `UrlKey.DecodedPath` | background.js:43-46 | the decoded path, or the raw path when decoding throws |
| `UrlKey.TrimSlash` | background.js:48-50 | a path longer than one character loses exactly one trailing `/`; any other path is kept |
| `UrlKey.TrimSlashAtMostOnce` | background.js:48-50 | `/` is kept, at most one slash goes, `//` endings keep one slash |
| `UrlKey.WatchKey` | background.js:26-29 | a YouTube `/watch` page whose first `v` pair has a non-empty value is keyed `youtube.com/watch?v=` + that value |
| `UrlKey.WatchKeyIgnoresHostAndOtherParams` | background.js:26-29 | two watch pages with the same first `v` share a key, whatever their YouTube host and other parameters |
| `UrlKey.ShortsPiece` | background.js:34 | `split('/')[2]` of a `/shorts/` path is the text after `/shorts/` up to the next slash |
| `UrlKey.ShortsKey` | background.js:32-35 | a YouTube short with a non-empty id is keyed `youtube.com/shorts/` + id |
| `UrlKey.ShortsKeyIgnoresLaterPieces` | background.js:32-35 | path pieces after the shorts id and the query do not change the key |
| `UrlKey.ShortsWithoutIdIsGeneric` | background.js:32-53 | a `/shorts/` path with an empty id falls through to the generic key |
| `UrlKey.GenericKeyShape` | background.js:39-53 | off YouTube the key is stripped host + trimmed decoded path, and the query never contributes |
| `UrlKey.MirrorAndTrailingSlash` | background.js:40-53 | a labelled mirror with one extra trailing slash keys like the bare host and path |
| `UrlKey.NotIncludes` | background.js:26 | a host lacking the needle's first character does not include it |
| `UrlKey.NoLabelPrefix` | background.js:40 | a host starting with none of `w`, `n`, `o`, `s` has no label to strip |
| `UrlKey.ExampleMirrorSlash` | background.js:39-53 | `www.example.com/a/` and `example.com/a` both key to `example.com/a` |
| `UrlKey.ExampleSchemeMirrorSlash` | background.js:21-57 | `http://www.example.com/a/` and `https://example.com/a` share the key `example.com/a` |
| `UrlKey.WatchFirstParam` | background.js:26-29 | a parsed watch page whose first pair is a non-empty `v` is keyed on that value |
| `UrlKey.ExampleWatchParams` | background.js:26-29 | `...watch?v=XYZ&t=10` on `www.youtube.com` and `...watch?v=XYZ` on `youtube.com` both key to `youtube.com/watch?v=XYZ` |
| `UrlKey.ShortsExample` | background.js:32-35 | `/shorts/<id>` with a slash-free id is keyed on the id |
| `UrlKey.ExampleShortsDiffer` | background.js:32-35 | shorts `abc` and `def` get different keys |
| `JsStrings.IncludesIffOccurs` | background.js:26 | `includes` holds iff the needle occurs at some index |
| `JsStrings.Join` | background.js:34 | a join starts with its first piece |
| `JsStrings.Split` | background.js:34 | `split` yields at least one piece and no piece contains the separator |
| `JsStrings.JoinSplit` | background.js:34 | joining the pieces of a split gives the string back |
| `JsStrings.SplitJoin` | background.js:34 | splitting a join of separator-free pieces gives the pieces back |
| `JsStrings.SplitPiece` | background.js:34 | a separator-free string splits into itself alone |
| `JsStrings.SplitAfterPiece` | background.js:34 | a separator-free piece before a separator is the first piece of the split |
| `JsStrings.SplitHead` | background.js:34 | the first piece is the text before the first separator |
| `JsStrings.FirstPiece` | background.js:34 | a prefix free of the separator, followed by the separator or the end |
| `JsStrings.PieceAt` | background.js:34-35 | an index past the end reads as the falsy empty string |
| `JsStrings.NatToString` | background.js:95 | `toString` of a count: non-empty decimal digits, no leading zero unless 0 |
| `JsStrings.DecimalValueOfNatToString` | background.js:95 | reading the decimal text of `n` back gives `n` |
| `Background.ActiveIn` | background.js:61 | the active-tab query returns only active tabs of the current window |
| `Background.ActiveInComplete` | background.js:61 | the query returns every active tab of the current window |
| `Background.ActiveInFirst` | background.js:61-64 | `activeTabs[0]` is the first active tab of the current window in snapshot order |
| `Background.IdsWhereMembers` | background.js:81-90 | an id is selected iff some snapshot tab with that id satisfies the rule |
| `Background.IdsWherePrefix` | background.js:81-90 | one more tab adds its id exactly when the rule selects it |
| `Background.SelectedTabs` | background.js:166-180 | with unique ids, a tab's id is selected iff the rule selects that tab |
| `Background.IdsWhere` | background.js:75-90 | the loops select at most one id per tab |
| `Background.IdsWhereDistinct` | background.js:81-90 | with unique tab ids the selection never repeats an id, so `matchCount` is the number of matching tabs |
| `Background.RequestsAt` | background.js:75-90 | one highlight (or unhighlight) request per id, each at its id's own position |
| `Background.WhereStep` | background.js:81-90 | one loop step appends the tab's id and its request exactly when the rule selects the tab |
| `Background.EffectMembers` | background.js:75-90 | a request for an id is in the list iff the id is |
| `Background.CountHighlights` | background.js:88 | no more highlights than effects |
| `Background.CountHighlightsAppend` | background.js:88 | highlight counts add over concatenation |
| `Background.CountHighlightsOf` | background.js:88 | the highlight list has one highlight per id; the unhighlight list has none |
| `Background.BadgeText` | background.js:94-99 | with matches and the counter on, decimal digits without a leading zero reading back as the count; otherwise `""` |
| `Background.Anchor` | background.js:157-161 | the sender's id when truthy; otherwise the active tab's id; otherwise a falsy anchor |
| `Background.FindTab` | background.js:245 | the tab with the id when one exists, `None` only when none does |
| `Background.ClearOutcome` | background.js:105-109 | exactly the inactive highlighted tabs are unhighlighted, and nothing else is requested |
| `Background.RefreshEffects` | background.js:59-103 | no effect exactly when there is no active tab; otherwise the last effect sets the active tab's badge |
| `Background.RefreshMembers` | background.js:75-90 | the stale highlights of other tabs are cleared and exactly the other same-key tabs with a URL are highlighted |
| `Background.RefreshCount` | background.js:81-99 | the refresh holds one highlight per match and ends with the badge |
| `Background.RefreshOutcome` | background.js:59-103 | no active tab: no effect; non-http: only a cleared badge; else exactly the other highlighted tabs are unhighlighted, exactly the other same-key tabs with a URL are highlighted, and the last effect is the badge for their count |
| `Background.HoverMatches` | background.js:154-180 | at most one match per tab, and never the sender's own truthy tab id |
| `Background.HoverOutcome` | background.js:154-180 | a hover match is never suppressed, never the anchor, always a same-key snapshot tab; with unique ids the matches are exactly those tabs |
| `Background.ZeroIdIsNoAnchor` | background.js:157-169 | with sender id 0 and no non-zero active tab, the tab with id 0 is itself matched |
| `Background.TwoDuplicateTabs` | background.js:59-99 | two same-key tabs: refreshing for one highlights the other and sets the badge to `"1"` |
| `Background.Coordinator.constructor` | background.js:8-9 | empty suppression map, switch time 0 |
| `Background.Coordinator.UnhighlightWhere` | background.js:75-79 | the clean-up loop emits the unhighlights of `IdsWhere` |
| `Background.Coordinator.HighlightWhere` | background.js:81-90 | the matching loop's `matchedTabIds` is `IdsWhere`, `matchCount` its length, and one highlight per match |
| `Background.Coordinator.HighlightStep` | background.js:82-89 | one pass of the matching loop body extends `matchedTabIds`, `matchCount` and the highlights by exactly the selection of one more tab |
| `Background.Coordinator.RefreshForActiveTab` | background.js:59-103 | the effects are `RefreshEffects` of the snapshot |
| `Background.Coordinator.ClearAllHighlights` | background.js:105-109 | unhighlights of the inactive highlighted tabs |
| `Background.Coordinator.HandleHighlightTab` | background.js:142-189 | no URL: nothing; else inactive highlights cleared, then the hover matches highlighted and replied with `count == |tabIds|` |
| `Background.Coordinator.HandleRemoveHighlight` | background.js:191-201 | clean-up, the sender's badge cleared when there is a sender tab, then the refresh |
| `Background.Coordinator.HandleUnhighlightAll` | background.js:203-225 | clears iff the sender is the active tab or more than 500 ms have passed; always once `now > 500` |
| `Background.Coordinator.HandleSuppress` | background.js:226-241 | when honoured and there is a sender tab, sets only the sender's flag and clears; else changes nothing |
| `Background.Coordinator.HandleSwitchToTab` | background.js:242-249 | a truthy id is activated and its window focused when the tab is found; otherwise nothing |
| `Background.Coordinator.OnMessage` | background.js:140-254 | dispatch on the action; suppression flags are never lost; only `highlightTab` replies |
| `Background.Coordinator.OnActivated` | background.js:112-121 | deletes only the activated tab's flag and schedules a refresh in 200 ms |
| `Background.Coordinator.OnUpdated` | background.js:123-131 | schedules a refresh iff the load completed or the URL changed on the active tab |
| `Background.Coordinator.OnStorageChanged` | background.js:134-138 | a local `showCounter` change refreshes at once; any other change does nothing |
| `Content.HoverObserver.constructor` | content.js:5-8 | no link, no timer, delay 50, leave-clear on |
| `Content.HoverObserver.SettingsLoaded` | content.js:11-14 | the stored settings replace both cached values |
| `Content.HoverObserver.OnStorageChanged` | content.js:17-26 | a local change overwrites only the keys it carries |
| `Content.HoverObserver.OnMessage` | content.js:29-34 | `SETTINGS_UPDATED` overwrites only the defined settings |
| `Content.Hoverable` | content.js:38-40 | a target is hovered iff it is an anchor whose `href` starts with `http`; the empty-href test adds nothing |
| `Content.HoverObserver.OnMouseOver` | content.js:37-62 | no anchor, empty or non-http href, or the current link: no change and nothing sent; a new link replaces the timer, sends `removeHighlight` iff a current link exists, and keeps `currentTarget` |
| `Content.HoverObserver.OnTimerFired` | content.js:57-60 | the timer's link becomes current and exactly one `highlightTab` with its href is sent |
| `Content.HoverObserver.OnMouseOut` | content.js:64-91 | any anchor clears the timer; the current link is dropped with one `removeHighlight` unless the pointer moved inside it; no related target sends `UNHIGHLIGHT_ALL` iff the setting is on |
| `Content.HoverObserver.OnDocumentMouseLeave` | content.js:79-83 | sends `UNHIGHLIGHT_ALL` iff `unhighlightOnWindowLeave` |
| `Content.HoverObserver.OnWindowBlur` | content.js:93-97 | sends `UNHIGHLIGHT_ALL` iff `unhighlightOnWindowLeave` |
| `Content.ReturnToCurrentLink` | content.js:49-61 | with no `mouseout` in between, hovering back onto the current link keeps the other link's timer, which then makes that other link current |
| `Content.LeaveAndReturn` | content.js:37-76 | with the `mouseout` of each link, leaving clears the other link's timer and returning highlights the first link again |

## Left out

- options.js: it is form and localisation glue that writes settings to storage. It is not part of this model.
- The URL parser, `URLSearchParams` decoding and `decodeURIComponent`: they are library code, so they are the parameters `UrlLib.parse` and `UrlLib.decode`. A parsed `Url` carries no scheme or port.
- Host browser calls: query order is taken to be snapshot order. A failed request, promise rejection and `console.error` logging are not modelled. The badge colour `#FF4444` (background.js:96) is not modelled.
- Timing: the 200 ms refresh delay and the hover delay are recorded in the `ScheduleRefresh` effect and the `Timer` slot. When a timer fires is up to the caller. `Date.now()` is a parameter.
- Concurrency: each handler is atomic over one snapshot. The interleaving of the asynchronous handlers, and a refresh seeing a stale snapshot, are not modelled.
- The `showCounter` read in the `highlightTab` branch (background.js:182-188) leads to an empty block, so it has no effect and is not a parameter.
- A storage change whose `newValue` is `undefined` (a removed key) is not modelled. A present key always carries a value of the right type.
- Messages whose fields have the wrong JavaScript type (a non-string `url`, a missing `settings` object) are not modelled.
- The idempotence of the key is not stated. A key has no scheme, so whether it parses again depends on the parser, and `Normalize` already states that an unparsable string is its own key.
- The "top edge" suppress request: content.js never sends `SUPPRESS_HIGHLIGHT_FOR_TAB`. Only the background handler exists, and it is modelled.
