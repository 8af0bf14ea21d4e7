/**
 * The geolocation state machine of
 * `entities/location/model/useCurrentLocation.ts`. The hook's state moves
 * from idle to loading when a position is requested, then to success or
 * error when the browser answers; `retry` requests again. Browser support
 * and the browser's answers are the events of the machine.
 */
module CurrentLocation {
  import opened Wrappers

  datatype Status = Idle | Loading | Success | Error

  datatype Coords = Coords(lat: real, lon: real)

  datatype LocationState = LocationState(status: Status, coords: Option<Coords>, error: Option<string>)

  const UnsupportedMessage: string := "위치 서비스를 지원하지 않는 브라우저입니다"
  const PermissionDeniedMessage: string := "위치 권한이 거부되었습니다"
  const PositionUnavailableMessage: string := "위치 정보를 사용할 수 없습니다"
  const TimeoutMessage: string := "위치 요청 시간이 초과되었습니다"
  const UnknownErrorMessage: string := "알 수 없는 오류가 발생했습니다"

  /** The hook's initial state. */
  const Initial: LocationState := LocationState(Idle, None, None)

  /** What each status says about the other two fields. */
  predicate Consistent(s: LocationState)
  {
    match s.status
    case Idle => s.coords.None? && s.error.None?
    case Loading => s.coords.None? && s.error.None?
    case Success => s.coords.Some? && s.error.None?
    case Error => s.coords.None? && s.error.Some?
  }

  /** The error callback's `switch (error.code)`. */
  function ErrorMessage(code: int): (m: string)
    ensures code == 1 ==> m == PermissionDeniedMessage
    ensures code == 2 ==> m == PositionUnavailableMessage
    ensures code == 3 ==> m == TimeoutMessage
    ensures code !in {1, 2, 3} ==> m == UnknownErrorMessage
  {
    match code
    case 1 => PermissionDeniedMessage
    case 2 => PositionUnavailableMessage
    case 3 => TimeoutMessage
    case _ => UnknownErrorMessage
  }

  /** The five messages are pairwise different, so each code is recoverable
      from the message it produces. */
  lemma ErrorMessagesDistinguishCodes(c1: int, c2: int)
    requires c1 in {1, 2, 3}
    ensures ErrorMessage(c1) == ErrorMessage(c2) <==> c1 == c2
    ensures ErrorMessage(c1) != UnsupportedMessage
  {
  }

  /** What `fetchLocation` does at once: the new state, and whether a
      position request was issued to the browser. */
  datatype FetchStart = FetchStart(state: LocationState, requested: bool)

  /** `fetchLocation` (and `retry`, which is the same callback). */
  function FetchLocation(supported: bool): (r: FetchStart)
    ensures !supported ==> r.state == LocationState(Error, None, Some(UnsupportedMessage)) && !r.requested
    ensures supported ==> r.state == LocationState(Loading, None, None) && r.requested
    ensures Consistent(r.state)
  {
    if !supported then FetchStart(LocationState(Error, None, Some(UnsupportedMessage)), false)
    else FetchStart(LocationState(Loading, None, None), true)
  }

  /** The success callback. */
  function OnPosition(latitude: real, longitude: real): (s: LocationState)
    ensures s.status == Success && s.coords == Some(Coords(latitude, longitude)) && s.error.None?
  {
    LocationState(Success, Some(Coords(latitude, longitude)), None)
  }

  /** The error callback. */
  function OnPositionError(code: int): (s: LocationState)
    ensures s.status == Error && s.coords.None? && s.error == Some(ErrorMessage(code))
  {
    LocationState(Error, None, Some(ErrorMessage(code)))
  }

  /** The events that change the hook's state. */
  datatype Event =
    | Fetch(supported: bool)
    | Position(latitude: real, longitude: real)
    | PositionError(code: int)

  /** The callbacks replace the state whatever it was. */
  function Step(s: LocationState, e: Event): LocationState
  {
    match e
    case Fetch(supported) => FetchLocation(supported).state
    case Position(lat, lon) => OnPosition(lat, lon)
    case PositionError(code) => OnPositionError(code)
  }

  function Run(s: LocationState, events: seq<Event>): LocationState
    decreases |events|
  {
    if |events| == 0 then s else Run(Step(s, events[0]), events[1..])
  }

  /** From the initial state, every sequence of events leaves the state
      consistent: no error state has coordinates, no success state has an
      error message. */
  lemma {:induction false} RunStaysConsistent(s: LocationState, events: seq<Event>)
    requires Consistent(s)
    ensures Consistent(Run(s, events))
    decreases |events|
  {
    if |events| > 0 {
      RunStaysConsistent(Step(s, events[0]), events[1..]);
    }
  }

  lemma {:induction false} RunSnoc(s: LocationState, events: seq<Event>, e: Event)
    ensures Run(s, events + [e]) == Step(Run(s, events), e)
    decreases |events|
  {
    if |events| == 0 {
      assert events + [e] == [e];
      assert [e][1..] == [];
    } else {
      assert (events + [e])[0] == events[0];
      assert (events + [e])[1..] == events[1..] + [e];
      RunSnoc(Step(s, events[0]), events[1..], e);
    }
  }

  /** After an error, `retry` goes back to loading and a later position
      reaches success. */
  lemma RetryRecovers(code: int, latitude: real, longitude: real)
    ensures Run(Initial, [Fetch(true), PositionError(code)]).status == Error
    ensures Run(Initial, [Fetch(true), PositionError(code), Fetch(true)]).status == Loading
    ensures Run(Initial, [Fetch(true), PositionError(code), Fetch(true), Position(latitude, longitude)])
            == LocationState(Success, Some(Coords(latitude, longitude)), None)
  {
    var e1 := [Fetch(true)];
    var e2 := e1 + [PositionError(code)];
    var e3 := e2 + [Fetch(true)];
    var e4 := e3 + [Position(latitude, longitude)];
    assert e2 == [Fetch(true), PositionError(code)];
    assert e3 == [Fetch(true), PositionError(code), Fetch(true)];
    assert e4 == [Fetch(true), PositionError(code), Fetch(true), Position(latitude, longitude)];
    RunSnoc(Initial, [], Fetch(true));
    assert [] + e1 == e1;
    RunSnoc(Initial, e1, PositionError(code));
    RunSnoc(Initial, e2, Fetch(true));
    RunSnoc(Initial, e3, Position(latitude, longitude));
  }
}
