/**
 * SimpleObserver: the set of objects that have notified an observer since
 * it last cleared its notifications.
 */
module Observers {

  class SimpleObserver<T(==)> {
    var messages: set<T>

    constructor ()
      ensures messages == {}
    {
      messages := {};
    }

    /** Records a notification; one already recorded stays a single entry, and none is lost. */
    method RecieveMessage(p: T)
      modifies this
      ensures messages == old(messages) + {p}
    {
      messages := messages + {p};
    }

    function getNotifications(): set<T>
      reads this
    {
      messages
    }

    method ClearPreviousNotifications()
      modifies this
      ensures getNotifications() == {}
    {
      messages := {};
    }
  }

  /** What the observer holds after a run of notifications: exactly the objects that sent one. */
  function Received<T(!new)>(start: set<T>, sent: seq<T>): (r: set<T>)
    ensures forall p :: p in r <==> p in start || p in sent
    decreases |sent|
  {
    if sent == [] then start else Received(start + {sent[0]}, sent[1..])
  }

  /** Notifying twice is notifying once, and notifications commute. */
  lemma {:induction false} ReceivedIgnoresRepeats<T(!new)>(start: set<T>, sent: seq<T>, p: T)
    ensures Received(start, sent + [p, p]) == Received(start, sent + [p])
    ensures Received(start, [p] + sent) == Received(start, sent + [p])
  {
    var a, b, c := Received(start, sent + [p, p]), Received(start, sent + [p]), Received(start, [p] + sent);
    assert forall q :: q in a <==> q in b;
    assert forall q :: q in c <==> q in b;
  }
}
