/** The reply table of a connection: a fixed number of slots indexed by serial,
    and a fallback map for serials whose slot is taken. `Message` is whatever a
    reply carries besides the serial it answers. */
module ReplyTable {
  import opened Options

  const MAX_CONCURRENT_MESSAGES: nat := 56

  const MAX_SERIAL: nat := 0xffff_ffff

  datatype Reply<Message> = Reply(replySerial: nat, message: Message)

  /** A channel holds at most one message that nobody has received yet. */
  datatype Slot<Message> = Slot(inbox: Option<Reply<Message>>, serial: nat, ready: bool)

  datatype Table<Message> = Table(
    serial: nat, slots: seq<Slot<Message>>, fallback: map<nat, Option<Reply<Message>>>)

  datatype Home = InSlot | InFallback | NoHome

  datatype Routed = ToSlot | ToFallback | UnknownSerial

  function SlotOf(serial: nat): (i: nat)
    ensures i < MAX_CONCURRENT_MESSAGES
  {
    serial % MAX_CONCURRENT_MESSAGES
  }

  function IdleSlot<Message>(): Slot<Message> {
    Slot(None, 0, true)
  }

  function Initial<Message>(): Table<Message> {
    Table(1, seq(MAX_CONCURRENT_MESSAGES, _ => IdleSlot()), map[])
  }

  /** Serials are 32 bits wide. */
  function Successor(serial: nat): nat {
    if serial == MAX_SERIAL then 0 else serial + 1
  }

  /** Where the next message's reply will be awaited. */
  function HomeOfNext<Message>(t: Table<Message>, expectsReply: bool): Home
    requires |t.slots| == MAX_CONCURRENT_MESSAGES
  {
    if !expectsReply then NoHome else if t.slots[SlotOf(t.serial)].ready then InSlot else InFallback
  }

  function Registered<Message>(t: Table<Message>, expectsReply: bool): Table<Message>
    requires |t.slots| == MAX_CONCURRENT_MESSAGES
  {
    var i := SlotOf(t.serial);
    match HomeOfNext(t, expectsReply)
    case NoHome => t.(serial := Successor(t.serial))
    case InSlot => t.(serial := Successor(t.serial),
                      slots := t.slots[i := t.slots[i].(ready := false, serial := t.serial)])
    case InFallback =>
      t.(serial := Successor(t.serial),
         fallback := if t.serial in t.fallback then t.fallback else t.fallback[t.serial := None])
  }

  function Route<Message>(t: Table<Message>, replySerial: nat): Routed
    requires |t.slots| == MAX_CONCURRENT_MESSAGES
  {
    var slot := t.slots[SlotOf(replySerial)];
    if slot.serial == replySerial && !slot.ready then ToSlot
    else if replySerial in t.fallback then ToFallback
    else UnknownSerial
  }

  /** What stands in the channel a reply is routed to. */
  function Waiting<Message>(t: Table<Message>, replySerial: nat): Option<Reply<Message>>
    requires |t.slots| == MAX_CONCURRENT_MESSAGES
  {
    match Route(t, replySerial)
    case ToSlot => t.slots[SlotOf(replySerial)].inbox
    case ToFallback => t.fallback[replySerial]
    case UnknownSerial => None
  }

  function Posted<Message>(t: Table<Message>, reply: Reply<Message>): Table<Message>
    requires |t.slots| == MAX_CONCURRENT_MESSAGES
  {
    var i := SlotOf(reply.replySerial);
    match Route(t, reply.replySerial)
    case ToSlot => t.(slots := t.slots[i := t.slots[i].(inbox := Some(reply))])
    case ToFallback => t.(fallback := t.fallback[reply.replySerial := Some(reply)])
    case UnknownSerial => t
  }

  /** The channel a waiting caller holds on to. */
  function Channel<Message>(t: Table<Message>, serial: nat, home: Home): Option<Reply<Message>>
    requires |t.slots| == MAX_CONCURRENT_MESSAGES
  {
    if home.InSlot? then t.slots[SlotOf(serial)].inbox
    else if home.InFallback? && serial in t.fallback then t.fallback[serial]
    else None
  }

  function Collected<Message>(t: Table<Message>, serial: nat, home: Home): Table<Message>
    requires |t.slots| == MAX_CONCURRENT_MESSAGES
  {
    var i := SlotOf(serial);
    match home
    case InSlot => t.(slots := t.slots[i := t.slots[i].(inbox := None, ready := true)])
    case InFallback => t.(fallback := t.fallback - {serial})
    case NoHome => t
  }

  /** The table as the connection keeps it. */
  class Connection<Message> {
    var serial: nat
    var slots: seq<Slot<Message>>
    var fallback: map<nat, Option<Reply<Message>>>

    ghost predicate Valid()
      reads this
    {
      |slots| == MAX_CONCURRENT_MESSAGES
    }

    ghost function State(): Table<Message>
      reads this
    {
      Table(serial, slots, fallback)
    }

    constructor ()
      ensures Valid() && State() == Initial<Message>()
    {
      serial := 1;
      slots := [];
      fallback := map[];
      new;
      for i := 0 to MAX_CONCURRENT_MESSAGES
        invariant serial == 1 && fallback == map[]
        invariant |slots| == i && forall j :: 0 <= j < i ==> slots[j] == IdleSlot<Message>()
      {
        slots := slots + [IdleSlot<Message>()];
      }
      assert slots == Initial<Message>().slots;
    }

    /** Before the message is written: draw its serial and set up where its reply is awaited. */
    method Register(expectsReply: bool) returns (drawn: nat, home: Home)
      requires Valid()
      modifies this
      ensures Valid() && State() == Registered(old(State()), expectsReply)
      ensures drawn == old(serial) && home == HomeOfNext(old(State()), expectsReply)
    {
      drawn := serial;
      serial := Successor(serial);
      home := NoHome;
      if expectsReply {
        var slot := slots[SlotOf(drawn)];
        if !slot.ready {
          if drawn !in fallback {
            fallback := fallback[drawn := None];
          }
          home := InFallback;
        } else {
          slots := slots[SlotOf(drawn) := slot.(ready := false, serial := drawn)];
          home := InSlot;
        }
      }
    }

    /** A reply arrived. If its channel still holds one, the routine suspends until
        there is room, and nothing has changed so far. */
    method HandleReply(reply: Reply<Message>) returns (routed: Routed, suspended: bool)
      requires Valid()
      modifies this
      ensures Valid() && routed == Route(old(State()), reply.replySerial)
      ensures suspended == Waiting(old(State()), reply.replySerial).Some?
      ensures State() == if suspended then old(State()) else Posted(old(State()), reply)
    {
      var i := SlotOf(reply.replySerial);
      if slots[i].serial == reply.replySerial && !slots[i].ready {
        if slots[i].inbox.Some? {
          return ToSlot, true;
        }
        slots := slots[i := slots[i].(inbox := Some(reply))];
        return ToSlot, false;
      }
      if reply.replySerial in fallback {
        if fallback[reply.replySerial].Some? {
          return ToFallback, true;
        }
        fallback := fallback[reply.replySerial := Some(reply)];
        return ToFallback, false;
      }
      return UnknownSerial, false;
    }

    /** The caller resumes with the reply in its channel. */
    method Collect(sent: nat, home: Home) returns (reply: Reply<Message>)
      requires Valid() && Channel(State(), sent, home).Some?
      modifies this
      ensures Valid() && State() == Collected(old(State()), sent, home)
      ensures Some(reply) == Channel(old(State()), sent, home)
    {
      if home.InSlot? {
        var i := SlotOf(sent);
        reply := slots[i].inbox.value;
        slots := slots[i := slots[i].(inbox := None, ready := true)];
      } else {
        reply := fallback[sent].value;
        fallback := fallback - {sent};
      }
    }
  }
}
