/**
 * The "join a room" screen (app/receive.tsx): the text the user types, or a
 * share link pasted into the field, is normalised into a room code, and the
 * app navigates to `/room/<code>` unless that code is empty.
 */
module Receive {
  import opened JsString
  import opened Routing

  /** The path segment that precedes the room code in a share link. */
  const Marker: string := "/room/"

  /** The code field's `maxLength`. */
  const MaxCodeLength: nat := 4

  /** The route of the room screen for `code`: the template `/room/${code}`. */
  function RoomPath(code: string): (path: string)
  {
    "/room/" + code
  }

  predicate NoSlash(code: string)
  {
    forall k :: 0 <= k < |code| ==> code[k] != '/'
  }

  /**
   * joinRoom's normalisation: a string that includes `/room/` is replaced
   * by the second part of splitting it at `/room/`, with one trailing '/'
   * removed; any other string is kept as it is. The result never contains
   * `/room/`.
   */
  function Normalise(input: string): (code: string)
    ensures !Contains(code, Marker)
  {
    if Includes(input, Marker) then
      var parts := Split(input, Marker);
      if |parts| > 1 then
        ReplaceTrailingSlashKeepsAbsence(parts[1], Marker);
        ReplaceTrailingSlash(parts[1])
      else
        input
    else
      input
  }

  /** A string is its own room code exactly when it does not contain `/room/`. */
  lemma BareCodeIsKept(input: string)
    ensures Normalise(input) == input <==> !Contains(input, Marker)
  {
  }

  /** Whenever the input includes `/room/`, the `parts.length > 1` guard holds. */
  lemma SplitGuardAlwaysHolds(input: string)
    requires Includes(input, Marker)
    ensures |Split(input, Marker)| > 1
  {
  }

  /**
   * For a link, the code is the text between the first `/room/` and the
   * next `/room/` (or the end), less one final '/'.
   */
  lemma LinkCodeIsSegmentAfterFirstMarker(input: string, i: nat)
    requires IndexOf(input, Marker, 0) == Some(i)
    ensures Normalise(input)
      == ReplaceTrailingSlash(input[i + |Marker|..SegmentEnd(input, Marker, i + |Marker|)])
  {
    SplitFirstTwoParts(input, Marker, i);
  }

  /** Normalising a room code again changes nothing. */
  lemma NormaliseIsIdempotent(input: string)
    ensures Normalise(Normalise(input)) == Normalise(input)
  {
  }

  /** Whatever fits the four-character field cannot contain `/room/` and is kept verbatim. */
  lemma ShortInputIsKept(input: string)
    requires |input| <= MaxCodeLength
    ensures Normalise(input) == input
  {
  }

  /** `n` slashes. */
  function Slashes(n: nat): (r: string)
    ensures |r| == n && forall k :: 0 <= k < n ==> r[k] == '/'
  {
    seq(n, _ => '/')
  }

  /**
   * A link made of a prefix (with no `/room/` of its own, even one running
   * into the appended marker), `/room/`, a code without '/' and `n`
   * trailing slashes gives back the code followed by all but one of them.
   */
  lemma {:induction false} LinkRoundTrip(host: string, code: string, n: nat)
    requires forall k :: 0 <= k < |host| ==> !OccursAt(host + Marker, Marker, k)
    requires NoSlash(code)
    ensures Normalise(host + Marker + code + Slashes(n))
      == code + Slashes(if n == 0 then 0 else n - 1)
  {
    var url := host + Marker + code + Slashes(n);
    var from := |host| + |Marker|;
    assert url[|host|..from] == Marker;
    assert OccursAt(url, Marker, |host|);
    forall k | 0 <= k < |host| ensures !OccursAt(url, Marker, k) {
      assert !OccursAt(host + Marker, Marker, k);
      assert url[k..k + |Marker|] == (host + Marker)[k..k + |Marker|];
    }
    assert IndexOf(url, Marker, 0) == Some(|host|);
    forall k | from <= k ensures !OccursAt(url, Marker, k) {
      if k + |Marker| <= |url| {
        assert url[k..k + |Marker|][0] == url[k];
        assert url[k..k + |Marker|][1] == url[k + 1];
        if k < from + |code| {
          assert url[k] == code[k - from];
        } else {
          assert url[k + 1] == Slashes(n)[k + 1 - from - |code|];
        }
      }
    }
    assert SegmentEnd(url, Marker, from) == |url|;
    var segment := code + Slashes(n);
    assert url == (host + Marker) + segment;
    assert url[from..] == segment;
    assert url[from..|url|] == url[from..];
    LinkCodeIsSegmentAfterFirstMarker(url, |host|);
    if n == 0 {
      assert segment == code;
      assert !EndsWithSlash(code);
    } else {
      assert EndsWithSlash(segment);
      assert segment[..|segment| - 1] == code + Slashes(n - 1);
    }
  }

  /** Normalising the route of a room gives back its code. */
  lemma RoomPathRoundTrip(code: string)
    requires NoSlash(code)
    ensures Normalise(RoomPath(code)) == code
  {
    LinkRoundTrip([], code, 0);
    assert [] + Marker + code + Slashes(0) == RoomPath(code);
    assert code + Slashes(0) == code;
  }

  /** "https://host" has no `/room/` of its own, even one running into an appended `/room/`. */
  lemma ExampleHostIsPlain()
    ensures forall k :: 0 <= k < |"https://host"| ==> !OccursAt("https://host" + Marker, Marker, k)
  {
    var u := "https://host" + Marker;
    forall k | 0 <= k < 12 ensures !OccursAt(u, Marker, k) {
      assert u[k..k + |Marker|][0] == u[k] && u[k..k + |Marker|][1] == u[k + 1];
      if k < 6 {
        assert k == 0 || k == 1 || k == 2 || k == 3 || k == 4 || k == 5;
      } else {
        assert k == 6 || k == 7 || k == 8 || k == 9 || k == 10 || k == 11;
      }
    }
  }

  /**
   * A share link with or without its trailing '/', and the bare code, all
   * give the same room.
   */
  lemma LinkExamples()
    ensures Normalise("https://host/room/5821/") == "5821"
    ensures Normalise("https://host/room/5821") == "5821"
    ensures Normalise("5821") == "5821"
  {
    var host := "https://host";
    ExampleHostIsPlain();
    LinkRoundTrip(host, "5821", 1);
    LinkRoundTrip(host, "5821", 0);
    assert host + Marker + "5821" + Slashes(1) == "https://host/room/5821/";
    assert host + Marker + "5821" + Slashes(0) == "https://host/room/5821";
    assert "5821" + Slashes(0) == "5821";
    ShortInputIsKept("5821");
  }

  /** Only one final '/' is removed. */
  lemma StripExamples()
    ensures ReplaceTrailingSlash("x//") == "x/"
    ensures Normalise("https://host/room/5821//") == "5821/"
  {
    assert EndsWithSlash("x//");
    ExampleHostIsPlain();
    LinkRoundTrip("https://host", "5821", 2);
    assert "https://host" + Marker + "5821" + Slashes(2) == "https://host/room/5821//";
    assert "5821" + Slashes(1) == "5821/";
  }

  /** A link with nothing after `/room/` gives the empty code. */
  lemma EmptyLinkExample()
    ensures Normalise("https://host/room/") == ""
  {
    ExampleHostIsPlain();
    LinkRoundTrip("https://host", "", 0);
    assert "https://host" + Marker + "" + Slashes(0) == "https://host/room/";
    assert "" + Slashes(0) == "";
  }

  /** The screen's state: the text in the code field, and the app's router. */
  class ReceiveScreen {
    var code: string
    const router: Router

    /** The field never holds more than its `maxLength` characters. */
    ghost predicate Valid()
      reads this
    {
      |code| <= MaxCodeLength
    }

    constructor (router: Router)
      ensures Valid() && code == [] && this.router == router
    {
      code := [];
      this.router := router;
    }

    /** The field's `onChangeText`: the field never delivers more than `maxLength` characters. */
    method SetCode(text: string)
      requires |text| <= MaxCodeLength
      modifies this
      ensures Valid() && code == text
    {
      code := text;
    }

    /**
     * `joinRoom`: push `/room/<code>` for the normalised code, and only
     * when that code is non-empty. While the field holds at most four
     * characters, the normalised code is the field's text itself.
     */
    method JoinRoom()
      modifies router
      ensures router.history == old(router.history)
        + (if Normalise(code) != [] then [Pushed(RoomPath(Normalise(code)))] else [])
      ensures Valid() ==>
        router.history == old(router.history) + (if code != [] then [Pushed(RoomPath(code))] else [])
    {
      var roomToJoin := Normalise(code);
      if |roomToJoin| > 0 {
        router.Push(RoomPath(roomToJoin));
      }
      if Valid() {
        ShortInputIsKept(code);
      }
    }
  }
}
