# Room-code entry of the CopyEasy client, in Dafny

CopyEasy lets devices share notes and files through short-lived rooms that a
4-digit code names. A user reaches a room in one of two ways. They can type
the code, or a share link, on the join screen (`app/receive.tsx`). Or they can
scan a QR code on the scan screen (`app/scan.tsx`). Both screens turn the
text into a room code the same way:

- if the text includes `/room/`, take the part after the first `/room/`, up
  to the next `/room/` or the end, and drop one final `/`;
- otherwise the text is the code.

Then the app navigates to `/room/<code>`. The join screen pushes that route
only when the code is non-empty. The scan screen replaces the current route
unconditionally, but only for the first barcode it sees. A `scanned` latch
makes it ignore every later one.

The model has four modules:

- `JsString` (`js_string.dfy`) gives the ECMAScript built-ins the screens
  call, as ECMA-262 (2024 edition) defines them:
  - `StringIndexOf` (section 6.1.4.1);
  - `String.prototype.includes` (section 22.1.3.8);
  - `String.prototype.split` with a string separator (section 22.1.3.23);
  - `String.prototype.replace` (section 22.1.3.19) with the pattern `/\/$/`.
    That pattern has no flags, so `$` matches only at the end of the input.

  It also proves the facts about them that the screens rely on. `Split` and
  `Join` round-trip. No part of a split contains the separator. There is more
  than one part exactly when the separator occurs. The replace removes at most
  one `/`.
- `Routing` (`routing.dfy`) is the router. It is a log of `Pushed` /
  `Replaced` target paths and nothing else.
- `Receive` (`receive.dfy`) holds the join screen:
  - `Normalise`, the normalisation exactly as `joinRoom` writes it;
  - the lemmas about `Normalise`;
  - the `ReceiveScreen` class, with the `code` field state and `JoinRoom`.
- `Scan` (`scan.dfy`) holds the scan screen:
  - the `ScanScreen` class, with the `scanned` latch and a ghost record of
    the navigations it issued;
  - `ScannedRoomCode`, the handler's own copy of the parsing, proved equal to
    `Normalise` on every string.

A link's code is not its last path segment: the code takes everything
between the first `/room/` and the next one (or the end), so later path
segments or query text stay part of it (`LinkCodeIsSegmentAfterFirstMarker`).

One consequence of the code as written: the join screen's field has
`maxLength={4}`, and `/room/` has six characters. So a typed or pasted link
can never reach the link branch of `joinRoom`. `ShortInputIsKept` states
this, and `ReceiveScreen.JoinRoom` uses it: while the screen's invariant holds
(the field's text is at most four characters), the route it pushes is
`/room/` followed by the field's text itself. Only the scan screen ever sees
links.

## Model

| member | source | states |
|---|---|---|
| JsString.IndexOf | app/receive.tsx:15 | the result is the least index at or after `from` where the separator occurs; None exactly when it occurs nowhere from `from` on |
| JsString.Includes | app/receive.tsx:15 | `includes` is true exactly when the separator occurs somewhere in the string |
| JsString.SplitFrom | app/receive.tsx:16 | the cutting loop of `split` always yields at least one part |
| JsString.SplitFromPartsLackSeparator | app/receive.tsx:16 | no part that the cutting loop yields contains the separator |
| JsString.Split | app/receive.tsx:16 | `split` yields at least one part, and none of its parts contains the separator |
| JsString.SplitJoinRoundTrip | app/receive.tsx:16 | joining the parts of a split with the same separator gives back the original string |
| JsString.SplitHasSeveralPartsIffContains | app/receive.tsx:15-17 | `split` yields more than one part if and only if the separator occurs |
| JsString.SplitFirstTwoParts | app/receive.tsx:16-18 | when the first occurrence is at `i`, part 0 is the text before it and part 1 runs from just after it to the next occurrence or the end |
| JsString.FirstTrailingSlash | app/receive.tsx:18 | the regex scan finds the leftmost position where `/\/$/` matches (a `/` that is the last character), or reports none |
| JsString.ReplaceTrailingSlash | app/receive.tsx:18 | `replace(/\/$/, '')` removes exactly one final `/` when there is one and otherwise returns the string unchanged |
| JsString.ReplaceTrailingSlashKeepsAbsence | app/receive.tsx:18 | removing the final `/` cannot create an occurrence of a separator that was absent |
| Receive.Normalise | app/receive.tsx:14-20 | the room code never contains `/room/` |
| Receive.BareCodeIsKept | app/receive.tsx:14-15 | the input is returned verbatim if and only if it does not contain `/room/` |
| Receive.SplitGuardAlwaysHolds | app/receive.tsx:15-17 | whenever the input includes `/room/`, `parts.length > 1` holds, so the guard never falls through |
| Receive.LinkCodeIsSegmentAfterFirstMarker | app/receive.tsx:16-18 | for a link, the code is the text between the first `/room/` and the next `/room/` (or the end), with one final `/` removed |
| Receive.NormaliseIsIdempotent | app/receive.tsx:14-20 | normalising a room code a second time leaves it unchanged |
| Receive.ShortInputIsKept | app/receive.tsx:45-50 | any input that fits the 4-character field (line 50) cannot contain `/room/`, so line 15's test fails and the input is the code |
| Receive.LinkRoundTrip | app/receive.tsx:14-20 | a link made of a host, `/room/`, a code without `/` and n trailing slashes gives back the code followed by n-1 of the slashes (the code itself when n is 0 or 1) |
| Receive.RoomPathRoundTrip | app/receive.tsx:23 | normalising the route `/room/<code>` that the screen navigates to gives back the code, for any code without `/` |
| Receive.LinkExamples | app/receive.tsx:14-20 | `https://host/room/5821/`, `https://host/room/5821` and `5821` all give `5821` |
| Receive.StripExamples | app/receive.tsx:18 | only one `/` is removed: `x//` becomes `x/`, and `https://host/room/5821//` gives `5821/` |
| Receive.EmptyLinkExample | app/receive.tsx:16-24 | `https://host/room/` gives the empty code, so the join screen navigates nowhere |
| Receive.ReceiveScreen.constructor | app/receive.tsx:11 | the code field starts empty, which satisfies the invariant that the field holds at most 4 characters |
| Receive.ReceiveScreen.SetCode | app/receive.tsx:45-50 | the field's change handler stores the new text; since the field never delivers more than 4 characters, the invariant is kept |
| Receive.ReceiveScreen.JoinRoom | app/receive.tsx:13-25 | exactly one push of `/room/` + code when the normalised code is non-empty, and no navigation otherwise; under the screen's invariant the pushed route is `/room/` + the field's text itself, and nothing is pushed exactly when the field is empty |
| Routing.Router.constructor | app/receive.tsx:9 | the navigation log starts empty |
| Routing.Router.Push | app/receive.tsx:23 | `router.push` appends one `Pushed` entry with the target path and changes nothing else |
| Routing.Router.Replace | app/scan.tsx:50 | `router.replace` appends one `Replaced` entry with the target path and changes nothing else |
| Scan.ScannedRoomCode | app/scan.tsx:41-48 | the scan screen's inline parsing agrees with the join screen's `Normalise` on every string |
| Scan.ScanScreen.constructor | app/scan.tsx:13 | `scanned` starts false and no navigation has been issued |
| Scan.ScanScreen.HandleBarCodeScanned | app/scan.tsx:37-51 | while `scanned` is set, nothing changes. Otherwise `scanned` becomes true and exactly one `Replaced("/room/" + code)` is appended both to the router's log and to the screen's ghost record of its own navigations, even for an empty code. The invariant ties that record to the latch (empty while `scanned` is false, one entry once it is true), so the screen navigates at most once |
| Scan.EmptyScanStillNavigates | app/scan.tsx:50 | scanning `https://host/room/` still navigates, to `/room/`, because the scan screen has no non-empty guard |

## Left out

- The room screen (`app/room/[id].tsx`) is not part of this model. It holds the message store, the 24-hour retention sweep, presence, occupancy and room destruction, all of them calls into a hosted backend.
- `app/index.tsx` and `app/_layout.tsx` are layout, theming and navigation-stack setup and have no logic to state.
- `app/send.tsx` is left out. Its room code comes from `Math.floor(1000 + Math.random() * 9000)`, which is floating-point randomness. Its sharing and QR rendering are calls into platform UI.
- The camera-permission flow of `app/scan.tsx` (lines 12-35) and all rendering are left out as UI.
- The join button is disabled while the field is empty (app/receive.tsx:77). This is UI state, so `JoinRoom` is modelled for every field content, the empty one included.
- React applies `setScanned(true)` asynchronously. Two barcode callbacks in the same render could both see `scanned` false and both navigate. The model runs the handler sequentially, so each call sees the previous call's state.
- The router is a log of requested paths. Real navigation, the back stack and route matching are not modelled.
- JsString.Split: only a non-empty string separator is modelled. The screens always pass `/room/`. The split limit (2^32 - 1 parts by default) is not modelled, since no string has that many parts in practice.
- Strings are sequences of `char`, each standing for one UTF-16 code unit. There is no Unicode normalisation.
