/**
  The process-wide progress registry (`AppState::progress_senders`): the list
  of channel senders, one per client that opened the progress endpoint.
  Each channel is a `Channel` value: the messages it has accepted, in order,
  and whether its receiving side (the client's event stream) has gone away,
  after which sends to it fail.  A subscription is identified by its place
  in the list.  Clearing the list drops the senders; the streams of the
  dropped channels then end, and the model keeps them in `ended` so that
  what they received stays observable.  The mutex around the list is left
  out: the model runs every operation to completion, one at a time.
*/
module Observers {

  /** One unbounded channel of the progress endpoint. */
  datatype Channel = Channel(delivered: seq<string>, closed: bool)

  /** `unbounded_send(m)`: the channel accepts `m` only while its receiver is there. */
  function Offer(c: Channel, m: string): (r: Channel)
    ensures r.closed == c.closed
    ensures !c.closed ==> r.delivered == c.delivered + [m]
    ensures c.closed ==> r == c
  {
    if c.closed then c else c.(delivered := c.delivered + [m])
  }

  /** One broadcast of `m` to every channel in `chs`. */
  function Fanout(chs: seq<Channel>, m: string): (r: seq<Channel>)
    ensures |r| == |chs|
    ensures forall k :: 0 <= k < |chs| ==> r[k] == Offer(chs[k], m)
  {
    seq(|chs|, k requires 0 <= k < |chs| => Offer(chs[k], m))
  }

  /**
    The messages `ms` broadcast one after another: the same channels in the
    same places, none opened or closed, each keeping what it had received.
  */
  function FanoutAll(chs: seq<Channel>, ms: seq<string>): (r: seq<Channel>)
    ensures |r| == |chs|
    ensures forall k :: 0 <= k < |chs| ==> r[k].closed == chs[k].closed
    ensures forall k :: 0 <= k < |chs| ==> chs[k].delivered <= r[k].delivered
  {
    if ms == [] then chs else Fanout(FanoutAll(chs, ms[..|ms| - 1]), ms[|ms| - 1])
  }

  /** Broadcasting one more message extends the run by one fan-out. */
  lemma FanoutAllSnoc(chs: seq<Channel>, ms: seq<string>, m: string)
    ensures FanoutAll(chs, ms + [m]) == Fanout(FanoutAll(chs, ms), m)
  {
    assert (ms + [m])[..|ms|] == ms;
  }

  /**
    Every open channel receives all broadcast messages, once each and in
    order, after what it already had; a closed one receives nothing; no
    channel is opened or closed by broadcasting.
  */
  lemma {:induction false} FanoutAllDelivers(chs: seq<Channel>, ms: seq<string>)
    ensures forall k :: 0 <= k < |chs| ==>
              FanoutAll(chs, ms)[k] == if chs[k].closed then chs[k] else Channel(chs[k].delivered + ms, false)
  {
    if ms != [] {
      var init, m := ms[..|ms| - 1], ms[|ms| - 1];
      FanoutAllDelivers(chs, init);
      forall k | 0 <= k < |chs| && !chs[k].closed
        ensures FanoutAll(chs, ms)[k] == Channel(chs[k].delivered + ms, false)
      {
        assert (chs[k].delivered + init) + [m] == chs[k].delivered + (init + [m]);
        assert init + [m] == ms;
      }
    }
  }

  /** The shared list of senders, and the channels whose senders were dropped. */
  class Registry {
    var channels: seq<Channel>
    var ended: seq<Channel>

    constructor ()
      ensures channels == [] && ended == []
    {
      channels := [];
      ended := [];
    }

    /** `progress`: open a new channel and push its sender at the end of the list. */
    method Subscribe() returns (id: nat)
      modifies this
      ensures id == |old(channels)|
      ensures channels == old(channels) + [Channel([], false)] && ended == old(ended)
    {
      id := |channels|;
      channels := channels + [Channel([], false)];
    }

    /** The client of subscription `id` goes away: its receiver is dropped. */
    method Disconnect(id: nat)
      requires id < |channels|
      modifies this
      ensures channels == old(channels)[id := old(channels)[id].(closed := true)] && ended == old(ended)
    {
      channels := channels[id := channels[id].(closed := true)];
    }

    /** `unbounded_send` on the sender of subscription `id`: fails, changing nothing, when its receiver is gone. */
    method Send(id: nat, m: string) returns (ok: bool)
      requires id < |channels|
      modifies this
      ensures ok == !old(channels)[id].closed
      ensures channels == old(channels)[id := Offer(old(channels)[id], m)] && ended == old(ended)
    {
      ok := !channels[id].closed;
      channels := channels[id := Offer(channels[id], m)];
    }

    /**
      The per-chunk fan-out: send `m` through every sender of a snapshot of
      the list, ignoring failed sends.
    */
    method Broadcast(m: string)
      modifies this
      ensures channels == Fanout(old(channels), m) && ended == old(ended)
    {
      var snapshot := channels;
      for i := 0 to |snapshot|
        invariant |channels| == |snapshot| && ended == old(ended)
        invariant forall k :: 0 <= k < i ==> channels[k] == Offer(snapshot[k], m)
        invariant forall k :: i <= k < |snapshot| ==> channels[k] == snapshot[k]
      {
        var _ := Send(i, m);
      }
    }

    /** `clear()`: drop every sender; their streams end with what they received. */
    method Clear()
      modifies this
      ensures channels == [] && ended == old(ended) + old(channels)
    {
      ended := ended + channels;
      channels := [];
    }
  }

  /**
    A channel subscribed at the end of any list receives exactly the
    messages broadcast after it was opened.
  */
  lemma FreshSubscriberGetsLaterMessages(chs: seq<Channel>, ms: seq<string>)
    ensures FanoutAll(chs + [Channel([], false)], ms)[|chs|] == Channel(ms, false)
  {
    FanoutAllDelivers(chs + [Channel([], false)], ms);
    assert [] + ms == ms;
  }
}
