/** `eventbus/queue_repository.py`: bounded in-memory queues, one per channel. */
module EventQueue {
  import opened Options
  import opened Json

  datatype Event = Event(
    eventId: string,
    channel: string,
    recordedAt: int,
    monotonic: int,
    payload: Json,
    traceId: Option<string>,
    spanId: Option<string>)

  /** An event and the queue it was put on, which need not be the channel the event names. */
  datatype Tagged = Tagged(queue: string, event: Event)

  type Queues = map<string, seq<Event>>

  /** `queue.Queue` treats a bound of zero or less as no bound. */
  predicate Full(q: seq<Event>, maxsize: int) {
    0 < maxsize <= |q|
  }

  class EventQueueRepository {
    var queues: Queues
    var dropped: map<string, nat>
    const channelNames: seq<string>
    const maxsize: int

    ghost predicate Valid()
      reads this
    {
      && queues.Keys == dropped.Keys == (set c | c in channelNames)
      && (maxsize > 0 ==> forall c :: c in queues ==> |queues[c]| <= maxsize)
    }

    constructor (channelNames: seq<string>, maxsize: int := 1000)
      ensures Valid() && this.channelNames == channelNames && this.maxsize == maxsize
      ensures forall c :: c in channelNames ==> queues[c] == [] && dropped[c] == 0
    {
      this.channelNames, this.maxsize := channelNames, maxsize;
      queues := map c | c in channelNames :: [];
      dropped := map c | c in channelNames :: 0;
    }

    /** Never blocks: a full queue drops the event and counts it. `known` is false where the source
        raises KeyError. */
    method Put(channel: string, event: Event) returns (known: bool)
      requires Valid()
      modifies this
      ensures Valid()
      ensures known <==> channel in channelNames
      ensures !known ==> unchanged(this)
      ensures known && (maxsize <= 0 || |old(queues)[channel]| < maxsize) ==>
                queues == old(queues)[channel := old(queues)[channel] + [event]] && dropped == old(dropped)
      ensures known && 0 < maxsize <= |old(queues)[channel]| ==>
                queues == old(queues) && dropped == old(dropped)[channel := old(dropped)[channel] + 1]
    {
      if channel !in queues {
        return false;
      }
      if Full(queues[channel], maxsize) {
        dropped := dropped[channel := dropped[channel] + 1];
      } else {
        queues := queues[channel := queues[channel] + [event]];
      }
      return true;
    }

    /** One pass over the channels in order: the head of the first queue that is not empty. */
    method GetAny(channels: seq<string>) returns (found: Option<Tagged>)
      requires Valid() && forall c :: c in channels ==> c in channelNames
      modifies this`queues
      ensures Valid()
      ensures found.None? ==> queues == old(queues) && forall c :: c in channels ==> queues[c] == []
      ensures found.Some? ==>
                && found.value.queue in channels
                && old(queues)[found.value.queue] != []
                && found.value.event == old(queues)[found.value.queue][0]
                && queues == old(queues)[found.value.queue := old(queues)[found.value.queue][1..]]
      ensures found.Some? ==>
                exists i :: 0 <= i < |channels| && channels[i] == found.value.queue
                  && forall j :: 0 <= j < i ==> channels[j] in old(queues) && old(queues)[channels[j]] == []
    {
      for i := 0 to |channels|
        invariant queues == old(queues)
        invariant forall j :: 0 <= j < i ==> queues[channels[j]] == []
      {
        var name := channels[i];
        if queues[name] != [] {
          found := Some(Tagged(name, queues[name][0]));
          queues := queues[name := queues[name][1..]];
          return;
        }
      }
      return None;
    }
  }
}
