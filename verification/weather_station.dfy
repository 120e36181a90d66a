/** `WeatherStation`: an ordered observer list and a stored temperature.
    Each `update` call an observer receives is an event in a returned trace. */
module WeatherStation {

  /** Java's `int`. The temperature is only stored and passed on. */
  newtype int32 = x: int | -0x8000_0000 <= x < 0x8000_0000

  /** The identity of an observer object (observers compare by identity). */
  type ObserverId = nat

  datatype Station = Station(observers: seq<ObserverId>, temperature: int32)

  /** One `observer.update(temperature)` call. */
  datatype Event = Update(observer: ObserverId, temperature: int32)

  /** `new WeatherStation()`: no observers, and the `int` field's default 0. */
  function NewStation(): (s: Station)
    ensures |s.observers| == 0 && s.temperature == 0
  {
    Station([], 0)
  }

  // -------------------------------------------------------- add / remove

  /** `addObserver`: appends, duplicates allowed. */
  function AddObserver(s: Station, o: ObserverId): (r: Station)
    ensures |r.observers| == |s.observers| + 1
    ensures r.observers[..|s.observers|] == s.observers && r.observers[|s.observers|] == o
    ensures multiset(r.observers) == multiset(s.observers) + multiset{o}
    ensures r.temperature == s.temperature
  {
    Station(s.observers + [o], s.temperature)
  }

  /** The position of the first occurrence of `o`. */
  function FirstIndex(xs: seq<ObserverId>, o: ObserverId): (k: nat)
    requires o in xs
    ensures k < |xs| && xs[k] == o && o !in xs[..k]
  {
    if xs[0] == o then 0
    else
      assert o in xs[1..] by { assert xs == [xs[0]] + xs[1..]; }
      var k := FirstIndex(xs[1..], o) + 1;
      assert xs[..k] == [xs[0]] + xs[1..][..k - 1];
      k
  }

  /** `List.remove(Object)`: removes the first occurrence, if any. */
  function RemoveFirst(xs: seq<ObserverId>, o: ObserverId): (r: seq<ObserverId>)
    ensures o !in xs ==> r == xs
    ensures o in xs ==> r == xs[..FirstIndex(xs, o)] + xs[FirstIndex(xs, o) + 1..]
  {
    if |xs| == 0 then xs
    else if xs[0] == o then xs[1..]
    else
      assert xs == [xs[0]] + xs[1..];
      [xs[0]] + RemoveFirst(xs[1..], o)
  }

  /** `removeObserver`. */
  function RemoveObserver(s: Station, o: ObserverId): (r: Station)
    ensures o !in s.observers ==> r == s
    ensures o in s.observers ==>
      var k := FirstIndex(s.observers, o);
      r.observers == s.observers[..k] + s.observers[k + 1..]
    ensures multiset(r.observers) == multiset(s.observers) - multiset{o}
    ensures r.temperature == s.temperature
  {
    var r := RemoveFirst(s.observers, o);
    if o in s.observers then
      var k := FirstIndex(s.observers, o);
      assert s.observers == s.observers[..k] + [o] + s.observers[k + 1..];
      Station(r, s.temperature)
    else
      Station(r, s.temperature)
  }

  /** Removing an observer just added, that was not registered before,
      restores the station. */
  lemma RemoveAfterAdd(s: Station, o: ObserverId)
    requires o !in s.observers
    ensures RemoveObserver(AddObserver(s, o), o) == s
  {
  }

  // ------------------------------------------------------------- notify

  /** One `update` per list entry, in list order, each with `t`. */
  function Broadcast(observers: seq<ObserverId>, t: int32): (trace: seq<Event>)
    ensures |trace| == |observers|
    ensures forall i | 0 <= i < |observers| :: trace[i] == Update(observers[i], t)
  {
    if |observers| == 0 then [] else [Update(observers[0], t)] + Broadcast(observers[1..], t)
  }

  /** The number of events delivered to `o`. */
  function EventsFor(trace: seq<Event>, o: ObserverId): nat {
    if |trace| == 0 then 0 else (if trace[0].observer == o then 1 else 0) + EventsFor(trace[1..], o)
  }

  /** An observer registered `k` times is notified `k` times. */
  lemma {:induction false} BroadcastMultiplicity(observers: seq<ObserverId>, t: int32, o: ObserverId)
    ensures EventsFor(Broadcast(observers, t), o) == multiset(observers)[o]
  {
    if |observers| > 0 {
      assert observers == [observers[0]] + observers[1..];
      var trace := Broadcast(observers, t);
      assert trace[1..] == Broadcast(observers[1..], t);
      BroadcastMultiplicity(observers[1..], t, o);
    }
  }

  /** A newly added observer is notified after all the earlier ones. */
  lemma AddThenBroadcast(s: Station, o: ObserverId, t: int32)
    ensures Broadcast(AddObserver(s, o).observers, t) == Broadcast(s.observers, t) + [Update(o, t)]
  {
  }

  /** A fresh station notifies nobody, whatever temperature it is given. */
  lemma NewStationNotifiesNobody(t: int32)
    ensures Broadcast(NewStation().observers, t) == []
  {
  }

  /** `notifyObservers`: the loop over the list; the station itself is unchanged. */
  method NotifyObservers(s: Station) returns (s': Station, trace: seq<Event>)
    ensures s' == s
    ensures trace == Broadcast(s.observers, s.temperature)
  {
    trace := [];
    var i := 0;
    while i < |s.observers|
      invariant 0 <= i <= |s.observers|
      invariant trace == Broadcast(s.observers[..i], s.temperature)
    {
      assert s.observers[..i + 1] == s.observers[..i] + [s.observers[i]];
      trace := trace + [Update(s.observers[i], s.temperature)];
      i := i + 1;
    }
    assert s.observers[..i] == s.observers;
    s' := s;
  }

  /** `setTemperature`: store `t`, then notify everyone with it. */
  method SetTemperature(s: Station, t: int32) returns (s': Station, trace: seq<Event>)
    ensures s'.temperature == t && s'.observers == s.observers
    ensures trace == Broadcast(s.observers, t)
    ensures forall i | 0 <= i < |trace| :: trace[i].temperature == t && trace[i].observer == s.observers[i]
  {
    var stored := s.(temperature := t);
    s', trace := NotifyObservers(stored);
  }
}
