/** The queue between the workers and the loop, and the counter that announces it. */
module Donequeue {
  import opened Message

  /** A response on its way back to the connection it was computed for. */
  datatype Item = Item(fd: int, id: nat, resp: Text)

  const BELL_MAX: nat := 0xFFFF_FFFF_FFFF_FFFE

  function Rung(bell: nat): nat {
    if bell < BELL_MAX then bell + 1 else bell
  }

  /** What other threads do to the queue: one half of push or the other. */
  datatype Deed = Pushes(item: Item) | Rings

  function PushedBy(deeds: seq<Deed>): seq<Item> {
    if deeds == [] then []
    else
      var init, last := deeds[..|deeds| - 1], deeds[|deeds| - 1];
      if last.Pushes? then PushedBy(init) + [last.item] else PushedBy(init)
  }

  function RungBy(bell: nat, deeds: seq<Deed>): nat {
    if deeds == [] then bell
    else
      var init, last := deeds[..|deeds| - 1], deeds[|deeds| - 1];
      if last.Rings? then Rung(RungBy(bell, init)) else RungBy(bell, init)
  }

  lemma DeedsSnoc(bell: nat, deeds: seq<Deed>, d: Deed)
    ensures PushedBy(deeds + [d]) == if d.Pushes? then PushedBy(deeds) + [d.item] else PushedBy(deeds)
    ensures RungBy(bell, deeds + [d]) == if d.Rings? then Rung(RungBy(bell, deeds)) else RungBy(bell, deeds)
  {
    assert (deeds + [d])[..|deeds|] == deeds;
  }

  lemma NoDeeds(bell: nat)
    ensures PushedBy([]) == [] && RungBy(bell, []) == bell
  {
  }

  class Donequeue {
    var queue: seq<Item>
    /** The eventfd counter; it saturates. */
    var bell: nat

    constructor ()
      ensures queue == [] && bell == 0
    {
      queue, bell := [], 0;
    }

    /** The locked region of push. */
    method Enqueue(item: Item)
      modifies this`queue
      ensures queue == old(queue) + [item]
    {
      queue := queue + [item];
    }

    /** The rest of push: the write to the eventfd, which at the maximum fails and leaves the counter there. */
    method Ring()
      modifies this`bell
      ensures bell == if old(bell) < 0xFFFF_FFFF_FFFF_FFFE then old(bell) + 1 else old(bell)
      ensures bell == Rung(old(bell))
    {
      bell := Rung(bell);
    }

    /** The read of the eventfd, which resets it. */
    method ReadCounter()
      modifies this`bell
      ensures bell == 0
    {
      bell := 0;
    }

    /** Other threads get in between. */
    method Others(deeds: seq<Deed>)
      modifies this`queue, this`bell
      ensures queue == old(queue) + PushedBy(deeds) && bell == RungBy(old(bell), deeds)
    {
      hide Rung, RungBy, PushedBy;
      NoDeeds(bell);
      var i := 0;
      while i < |deeds|
        invariant i <= |deeds|
        invariant queue == old(queue) + PushedBy(deeds[..i]) && bell == RungBy(old(bell), deeds[..i])
      {
        match deeds[i] {
          case Pushes(item) => Enqueue(item);
          case Rings => Ring();
        }
        DeedsSnoc(old(bell), deeds[..i], deeds[i]);
        assert deeds[..i + 1] == deeds[..i] + [deeds[i]];
        i := i + 1;
      }
      assert deeds[..i] == deeds;
    }

    /** drain: everything that is queued, in order. */
    method Drain() returns (items: seq<Item>)
      modifies this`queue
      ensures items == old(queue) && queue == []
    {
      items := queue;
      queue := [];
    }
  }
}
