/**
 * The QR scanning screen (app/scan.tsx): the first barcode delivered by the
 * camera sets the `scanned` latch and replaces the screen with the room it
 * names; every later barcode is ignored. The screen repeats the join
 * screen's normalisation in its own words (ScannedRoomCode), and replaces
 * unconditionally: an empty code still navigates, to `/room/`.
 */
module Scan {
  import opened JsString
  import opened Routing
  import opened Receive

  /**
   * The handler's inline parsing of the scanned text: a `/room/` link gives
   * the second part of splitting at `/room/` less one trailing '/', anything
   * else is the code itself. It agrees with the join screen's normalisation
   * on every string.
   */
  method ScannedRoomCode(data: string) returns (roomCode: string)
    ensures roomCode == Normalise(data)
  {
    roomCode := data;
    if Includes(data, Marker) {
      var parts := Split(data, Marker);
      if |parts| > 1 {
        roomCode := ReplaceTrailingSlash(parts[1]);
      }
    }
  }

  class ScanScreen {
    /** The `scanned` state, false until the first barcode arrives. */
    var scanned: bool
    const router: Router
    /** The navigations this screen instance has requested. */
    ghost var issued: seq<Navigation>

    /** The latch is set exactly when this screen has navigated, and it navigates at most once. */
    ghost predicate Valid()
      reads this
    {
      if scanned then |issued| == 1 else issued == []
    }

    constructor (router: Router)
      ensures Valid() && !scanned && issued == [] && this.router == router
    {
      scanned := false;
      issued := [];
      this.router := router;
    }

    /**
     * `handleBarCodeScanned({ data })`. While `scanned` is set it does
     * nothing; otherwise it sets `scanned` and replaces the route with
     * `/room/<code>`, where the code is what the join screen's
     * normalisation makes of `data`.
     */
    method HandleBarCodeScanned(data: string)
      requires Valid()
      modifies this, router
      ensures Valid() && scanned
      ensures old(scanned) ==> unchanged(this) && unchanged(router)
      ensures !old(scanned) ==>
        && issued == old(issued) + [Replaced(RoomPath(Normalise(data)))]
        && router.history == old(router.history) + [Replaced(RoomPath(Normalise(data)))]
    {
      if scanned {
        return;
      }
      scanned := true;

      var roomCode := ScannedRoomCode(data);
      router.Replace(RoomPath(roomCode));
      issued := issued + [Replaced(RoomPath(roomCode))];
    }
  }

  /** A scanned link with nothing after `/room/` still navigates, to `/room/`. */
  lemma EmptyScanStillNavigates()
    ensures RoomPath(Normalise("https://host/room/")) == "/room/"
  {
    EmptyLinkExample();
  }
}
