/**
 The gNMI side of a subscription: notifications arrive from the datastore, wait in a list that is filled at
 its head and emptied from its tail, and are pulled by the stream that serves the client.
 */
module Relay {
  /** Order of leaving: the list from its tail. */
  function Reversed<T>(s: seq<T>): (r: seq<T>)
    ensures |r| == |s|
  {
    if s == [] then [] else Reversed(s[1..]) + [s[0]]
  }

  lemma {:induction false} ReversedLast<T>(s: seq<T>)
    requires s != []
    ensures Reversed(s) == [s[|s| - 1]] + Reversed(s[..|s| - 1])
  {
    if |s| > 1 {
      ReversedLast(s[1..]);
      assert s[1..][..|s| - 2] == s[..|s| - 1][1..];
    }
  }

  /** A notification of a kind the gNMI server does not know carries no response and is dropped. */
  datatype Arrival<+T> = Known(response: T) | Unknown

  datatype Event<+T> = Arrives(arrival: Arrival<T>) | Pulled

  function Responses<T>(events: seq<Event<T>>): seq<T> {
    if events == [] then []
    else
      var last := events[|events| - 1];
      Responses(events[..|events| - 1])
      + if last.Arrives? && last.arrival.Known? then [last.arrival.response] else []
  }

  class SubscribeRequest<T> {
    var notifs: seq<T>

    constructor ()
      ensures Waiting() == []
    {
      notifs := [];
    }

    /** The responses yet to be pulled, in the order they will be. */
    ghost function Waiting(): seq<T>
      reads this
    {
      Reversed(notifs)
    }

    method PushNotif(arrival: Arrival<T>)
      modifies this
      ensures Waiting() == old(Waiting()) + if arrival.Known? then [arrival.response] else []
    {
      if arrival.Known? {
        notifs := [arrival.response] + notifs;
      }
    }

    /** Runs the generator until it is exhausted. */
    method PullNotifs() returns (out: seq<T>)
      modifies this
      ensures out == old(Waiting()) && Waiting() == []
    {
      out := [];
      while notifs != []
        invariant out + Waiting() == old(Waiting())
        decreases |notifs|
      {
        ReversedLast(notifs);
        out := out + [notifs[|notifs| - 1]];
        notifs := notifs[..|notifs| - 1];
      }
    }

    /** However pushes and pulls interleave, the client gets every response once and in order of arrival. */
    method Serve(events: seq<Event<T>>) returns (out: seq<T>)
      modifies this
      ensures out + Waiting() == old(Waiting()) + Responses(events)
    {
      out := [];
      for k := 0 to |events|
        invariant out + Waiting() == old(Waiting()) + Responses(events[..k])
      {
        assert events[..k + 1][..k] == events[..k];
        ghost var before := out + Waiting();
        match events[k]
        case Arrives(a) =>
          PushNotif(a);
          assert out + Waiting() == before + if a.Known? then [a.response] else [];
        case Pulled =>
          var some := PullNotifs();
          out := out + some;
          assert out + Waiting() == before;
      }
      assert events[..|events|] == events;
    }
  }
}
