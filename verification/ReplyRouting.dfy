/** Every interleaving of senders, the socket, the peer and the read loop, as steps
    of one system: between two suspension points code runs alone. The reply table
    behaves like one plain map from serial to awaited reply. */
module ReplyRouting {
  import opened Options
  import opened ReplyTable

  /** A request between registration and the collection of its reply. */
  datatype Stage = Writing | OnTheWire | Awaiting

  datatype Request = Request(home: Home, stage: Stage)

  /** `requests` are the callers suspended somewhere in a send that expects a reply,
      `lost` those whose write failed, `unanswered` what the peer has in hand. */
  datatype System<Message> = System(
    table: Table<Message>, requests: map<nat, Request>, lost: map<nat, Home>, unanswered: set<nat>)

  datatype Event<Message> =
    | Send(expectsReply: bool)
    | Write(serial: nat)
    | WriteFails(serial: nat)
    | WriteReturns(serial: nat)
    | Deliver(reply: Reply<Message>)
    | Collect(serial: nat)

  function Start<Message>(): System<Message> {
    System(Initial(), map[], map[], {})
  }

  predicate WellShaped<Message>(s: System<Message>) {
    |s.table.slots| == MAX_CONCURRENT_MESSAGES
  }

  /** When an event can happen. The peer answers at most once, and only what has
      been handed to the socket and expects an answer. The first serial is 1; after
      2^32 - 1 sends the counter is back at 0, and that is where runs end. */
  predicate Enabled<Message(==)>(s: System<Message>, e: Event<Message>)
    requires WellShaped(s)
  {
    match e
    case Send(_) => s.table.serial != 0
    case Write(n) => n in s.requests && s.requests[n].stage.Writing?
    case WriteFails(n) => n in s.requests && s.requests[n].stage.Writing?
    case WriteReturns(n) => n in s.requests && s.requests[n].stage.OnTheWire?
    case Deliver(reply) => reply.replySerial in s.unanswered
    case Collect(n) =>
      n in s.requests && s.requests[n].stage.Awaiting? && Channel(s.table, n, s.requests[n].home).Some?
  }

  function Next<Message(==)>(s: System<Message>, e: Event<Message>): System<Message>
    requires WellShaped(s) && Enabled(s, e)
  {
    match e
    case Send(expectsReply) =>
      var home := HomeOfNext(s.table, expectsReply);
      s.(table := Registered(s.table, expectsReply),
         requests := if expectsReply then s.requests[s.table.serial := Request(home, Writing)] else s.requests)
    case Write(n) =>
      s.(requests := s.requests[n := s.requests[n].(stage := OnTheWire)], unanswered := s.unanswered + {n})
    case WriteFails(n) =>
      s.(requests := s.requests - {n}, lost := s.lost[n := s.requests[n].home])
    case WriteReturns(n) =>
      s.(requests := s.requests[n := s.requests[n].(stage := Awaiting)])
    case Deliver(reply) =>
      s.(table := Posted(s.table, reply), unanswered := s.unanswered - {reply.replySerial})
    case Collect(n) =>
      s.(table := Collected(s.table, n, s.requests[n].home), requests := s.requests - {n})
  }

  // ---------- the invariant ----------

  /** Where a registered serial lives, whether its caller still waits or gave up. */
  function HomeOf<Message>(s: System<Message>, n: nat): Home {
    if n in s.requests then s.requests[n].home else if n in s.lost then s.lost[n] else NoHome
  }

  /** Serials below this may have been drawn. */
  function Drawn<Message>(t: Table<Message>): nat {
    if t.serial == 0 then MAX_SERIAL + 1 else t.serial
  }

  /** A busy slot and its occupant know each other, and so do a fallback entry and its. */
  ghost predicate HomesAreExact<Message(!new)>(s: System<Message>)
    requires WellShaped(s)
  {
    && (forall n: nat :: HomeOf(s, n).InSlot? <==>
          !s.table.slots[SlotOf(n)].ready && s.table.slots[SlotOf(n)].serial == n)
    && (forall n: nat :: HomeOf(s, n).InFallback? <==> n in s.table.fallback)
    && (forall i :: 0 <= i < |s.table.slots| && !s.table.slots[i].ready ==> SlotOf(s.table.slots[i].serial) == i)
  }

  /** A message only ever stands in the channel of the request it answers, and
      ready slots are empty. */
  ghost predicate ChannelsAreTrue<Message(!new)>(t: Table<Message>) {
    && (forall i :: 0 <= i < |t.slots| && t.slots[i].inbox.Some? ==>
          !t.slots[i].ready && t.slots[i].inbox.value.replySerial == t.slots[i].serial)
    && (forall n :: n in t.fallback && t.fallback[n].Some? ==> t.fallback[n].value.replySerial == n)
  }

  ghost predicate Inv<Message(!new)>(s: System<Message>) {
    && WellShaped(s) && s.table.serial <= MAX_SERIAL
    && HomesAreExact(s) && ChannelsAreTrue(s.table)
    && Books(s)
  }

  /** What is known of the requests, the lost ones and the unanswered ones. */
  ghost predicate Books<Message(!new)>(s: System<Message>)
    requires WellShaped(s)
  {
    && (forall n :: n in s.requests ==> n < Drawn(s.table) && n !in s.lost && s.requests[n].home != NoHome)
    && (forall n :: n in s.lost ==> n < Drawn(s.table) && s.lost[n] != NoHome && Channel(s.table, n, s.lost[n]).None?)
    && (forall n :: n in s.unanswered ==>
          n in s.requests && !s.requests[n].stage.Writing? && Channel(s.table, n, s.requests[n].home).None?)
    && (forall n :: n in s.requests && s.requests[n].stage.Writing? ==> Channel(s.table, n, s.requests[n].home).None?)
  }

  lemma InitiallyInv<Message(!new)>()
    ensures Inv(Start<Message>())
  {
  }

  lemma NextIsFree<Message(!new)>(s: System<Message>)
    requires Inv(s) && s.table.serial != 0
    ensures HomeOf(s, s.table.serial) == NoHome && s.table.serial !in s.table.fallback
  {
    hide SlotOf, ChannelsAreTrue;
    assert !HomeOf(s, s.table.serial).InFallback?;
  }

  lemma SendKeepsHomes<Message(!new)>(s: System<Message>, expectsReply: bool)
    requires Inv(s) && Enabled(s, Send(expectsReply))
    ensures HomesAreExact(Next(s, Send(expectsReply)))
  {
    hide SlotOf, ChannelsAreTrue, Books;
    var s', n := Next(s, Send(expectsReply)), s.table.serial;
    NextIsFree(s);
    SendMakesHome(s, expectsReply);
    hide HomeOf;
  }

  lemma SendMakesHome<Message(!new)>(s: System<Message>, expectsReply: bool)
    requires Inv(s) && Enabled(s, Send(expectsReply))
    ensures forall k: nat :: HomeOf(Next(s, Send(expectsReply)), k) ==
              if k == s.table.serial then HomeOfNext(s.table, expectsReply) else HomeOf(s, k)
  {
    hide SlotOf, ChannelsAreTrue;
    NextIsFree(s);
  }

  lemma SendKeepsChannels<Message(!new)>(s: System<Message>, expectsReply: bool)
    requires Inv(s) && Enabled(s, Send(expectsReply))
    ensures ChannelsAreTrue(Next(s, Send(expectsReply)).table)
  {
    hide SlotOf, Books, HomesAreExact;
  }

  /** Registering a request touches no other request's channel, and finds its own empty. */
  lemma OldChannelsStay<Message(!new)>(s: System<Message>, expectsReply: bool)
    requires Inv(s) && Enabled(s, Send(expectsReply))
    ensures var t' := Registered(s.table, expectsReply);
            && (forall k: nat, home: Home :: k < Drawn(s.table) ==> Channel(t', k, home) == Channel(s.table, k, home))
            && Channel(t', s.table.serial, HomeOfNext(s.table, expectsReply)).None?
  {
    hide SlotOf, Books;
    NextIsFree(s);
  }

  lemma SendKeepsBooks<Message(!new)>(s: System<Message>, expectsReply: bool)
    requires Inv(s) && Enabled(s, Send(expectsReply))
    ensures Books(Next(s, Send(expectsReply)))
  {
    hide SlotOf, HomesAreExact, ChannelsAreTrue;
    NextIsFree(s);
    OldChannelsStay(s, expectsReply);
    hide Channel;
  }

  lemma SendKeepsInv<Message(!new)>(s: System<Message>, expectsReply: bool)
    requires Inv(s) && Enabled(s, Send(expectsReply))
    ensures Inv(Next(s, Send(expectsReply)))
  {
    hide SlotOf, HomesAreExact, ChannelsAreTrue, Books;
    SendKeepsHomes(s, expectsReply);
    SendKeepsChannels(s, expectsReply);
    SendKeepsBooks(s, expectsReply);
  }

  /** The table and the homes decide; who stands where in a send does not. */
  lemma SameHomes<Message(!new)>(s: System<Message>, s': System<Message>)
    requires Inv(s) && s'.table == s.table && forall k: nat :: HomeOf(s', k) == HomeOf(s, k)
    ensures WellShaped(s') && HomesAreExact(s') && ChannelsAreTrue(s'.table)
  {
    hide HomeOf, SlotOf, ChannelsAreTrue, Books;
  }

  lemma WriteKeepsInv<Message(!new)>(s: System<Message>, e: Event<Message>)
    requires Inv(s) && (e.Write? || e.WriteReturns? || e.WriteFails?) && Enabled(s, e)
    ensures Inv(Next(s, e))
  {
    hide SlotOf, HomesAreExact, ChannelsAreTrue, Channel;
    SameHomes(s, Next(s, e));
  }

  /** A reply the peer may send finds its request, and the request's channel empty. */
  lemma ReplyIsRouted<Message(!new)>(s: System<Message>, n: nat)
    requires Inv(s) && n in s.unanswered
    ensures n in s.requests
    ensures Route(s.table, n) == (if s.requests[n].home.InSlot? then ToSlot else ToFallback)
    ensures Waiting(s.table, n) == None
  {
    hide SlotOf, ChannelsAreTrue;
    assert HomeOf(s, n) == s.requests[n].home;
  }

  lemma DeliverKeepsHomes<Message(!new)>(s: System<Message>, reply: Reply<Message>)
    requires Inv(s) && Enabled(s, Deliver(reply))
    ensures HomesAreExact(Next(s, Deliver(reply))) && ChannelsAreTrue(Next(s, Deliver(reply)).table)
  {
    hide SlotOf, Books;
    ReplyIsRouted(s, reply.replySerial);
    assert forall k: nat :: HomeOf(Next(s, Deliver(reply)), k) == HomeOf(s, k);
    hide HomeOf;
  }

  /** A delivery fills the channel of the request it answers and no other. */
  lemma OtherChannelsStay<Message(!new)>(s: System<Message>, reply: Reply<Message>, k: nat)
    requires Inv(s) && reply.replySerial in s.unanswered && k != reply.replySerial && HomeOf(s, k) != NoHome
    ensures Channel(Posted(s.table, reply), k, HomeOf(s, k)) == Channel(s.table, k, HomeOf(s, k))
  {
    hide SlotOf, ChannelsAreTrue, Books;
    ReplyIsRouted(s, reply.replySerial);
  }

  lemma TableKeepsShape<Message(!new)>(s: System<Message>, reply: Reply<Message>, n: nat, home: Home)
    requires WellShaped(s)
    ensures var t' := Posted(s.table, reply); |t'.slots| == MAX_CONCURRENT_MESSAGES && t'.serial == s.table.serial
    ensures var t' := Collected(s.table, n, home); |t'.slots| == MAX_CONCURRENT_MESSAGES && t'.serial == s.table.serial
  {
    hide SlotOf;
  }

  lemma DeliverKeepsBooks<Message(!new)>(s: System<Message>, reply: Reply<Message>)
    requires Inv(s) && Enabled(s, Deliver(reply))
    ensures Books(Next(s, Deliver(reply)))
  {
    hide SlotOf, HomesAreExact, ChannelsAreTrue, Channel, Posted, Route;
    var s', r := Next(s, Deliver(reply)), reply.replySerial;
    TableKeepsShape(s, reply, r, NoHome);
    DeliverFillsOwn(s, reply);
    forall n | n in s.lost ensures Channel(s'.table, n, s.lost[n]).None? {
      assert HomeOf(s, n) == s.lost[n];
      OtherChannelsStay(s, reply, n);
    }
    forall n | n in s.requests && n != r
      ensures Channel(s'.table, n, s.requests[n].home) == Channel(s.table, n, s.requests[n].home)
    {
      assert HomeOf(s, n) == s.requests[n].home;
      OtherChannelsStay(s, reply, n);
    }
  }

  lemma DeliverKeepsInv<Message(!new)>(s: System<Message>, reply: Reply<Message>)
    requires Inv(s) && Enabled(s, Deliver(reply))
    ensures Inv(Next(s, Deliver(reply)))
  {
    hide SlotOf, HomesAreExact, ChannelsAreTrue, Books;
    DeliverKeepsHomes(s, reply);
    DeliverKeepsBooks(s, reply);
  }

  lemma CollectFreesHome<Message(!new)>(s: System<Message>, n: nat)
    requires Inv(s) && Enabled(s, Event<Message>.Collect(n))
    ensures HomeOf(s, n) == s.requests[n].home != NoHome
    ensures forall k: nat :: HomeOf(Next(s, Event<Message>.Collect(n)), k) == if k == n then NoHome else HomeOf(s, k)
  {
    hide SlotOf, HomesAreExact, ChannelsAreTrue;
  }

  lemma CollectKeepsHomes<Message(!new)>(s: System<Message>, n: nat)
    requires Inv(s) && Enabled(s, Event<Message>.Collect(n))
    ensures HomesAreExact(Next(s, Event<Message>.Collect(n)))
  {
    hide SlotOf, HomeOf, Books, ChannelsAreTrue, Channel;
    CollectFreesHome(s, n);
  }

  lemma CollectKeepsChannels<Message(!new)>(s: System<Message>, n: nat)
    requires Inv(s) && Enabled(s, Event<Message>.Collect(n))
    ensures ChannelsAreTrue(Next(s, Event<Message>.Collect(n)).table)
  {
    hide SlotOf, HomeOf, Books, HomesAreExact, Channel;
  }

  /** Collecting frees the collector's own channel and no other. */
  lemma CollectLeavesOthers<Message(!new)>(s: System<Message>, n: nat, k: nat)
    requires Inv(s) && n in s.requests && k != n && HomeOf(s, k) != NoHome
    ensures Channel(Collected(s.table, n, s.requests[n].home), k, HomeOf(s, k)) == Channel(s.table, k, HomeOf(s, k))
  {
    hide SlotOf, ChannelsAreTrue, Books;
    assert HomeOf(s, n) == s.requests[n].home;
  }

  lemma CollectKeepsBooks<Message(!new)>(s: System<Message>, n: nat)
    requires Inv(s) && Enabled(s, Event<Message>.Collect(n))
    ensures Books(Next(s, Event<Message>.Collect(n)))
  {
    hide SlotOf, HomesAreExact, ChannelsAreTrue, Channel, Collected;
    var s' := Next(s, Event<Message>.Collect(n));
    TableKeepsShape(s, Channel(s.table, n, s.requests[n].home).value, n, s.requests[n].home);
    forall k | k in s.lost ensures Channel(s'.table, k, s.lost[k]).None? {
      assert HomeOf(s, k) == s.lost[k];
      CollectLeavesOthers(s, n, k);
    }
    forall k | k in s.requests && k != n
      ensures Channel(s'.table, k, s.requests[k].home) == Channel(s.table, k, s.requests[k].home)
    {
      assert HomeOf(s, k) == s.requests[k].home;
      CollectLeavesOthers(s, n, k);
    }
  }

  lemma CollectKeepsInv<Message(!new)>(s: System<Message>, n: nat)
    requires Inv(s) && Enabled(s, Event<Message>.Collect(n))
    ensures Inv(Next(s, Event<Message>.Collect(n)))
  {
    hide SlotOf, HomesAreExact, ChannelsAreTrue, Books, Channel;
    CollectKeepsHomes(s, n);
    CollectKeepsChannels(s, n);
    CollectKeepsBooks(s, n);
  }

  lemma StepKeepsInv<Message(!new)>(s: System<Message>, e: Event<Message>)
    requires Inv(s) && Enabled(s, e)
    ensures Inv(Next(s, e))
  {
    hide Inv, Next, Enabled;
    match e {
      case Send(expectsReply) => SendKeepsInv(s, expectsReply);
      case Deliver(reply) => DeliverKeepsInv(s, reply);
      case Collect(n) => CollectKeepsInv(s, n);
      case _ => WriteKeepsInv(s, e);
    }
  }

  // ---------- runs ----------

  ghost predicate IsRun<Message(!new)>(s: System<Message>, es: seq<Event<Message>>, s': System<Message>)
    decreases |es|
  {
    if es == [] then s' == s
    else WellShaped(s) && Enabled(s, es[0]) && IsRun(Next(s, es[0]), es[1..], s')
  }

  lemma {:induction false} RunKeepsInv<Message(!new)>(s: System<Message>, es: seq<Event<Message>>, s': System<Message>)
    requires Inv(s) && IsRun(s, es, s')
    ensures Inv(s')
    decreases |es|
  {
    if es != [] {
      hide Inv, Next, Enabled;
      StepKeepsInv(s, es[0]);
      RunKeepsInv(Next(s, es[0]), es[1..], s');
    }
  }

  ghost predicate Reachable<Message(!new)>(s: System<Message>) {
    exists es: seq<Event<Message>> :: IsRun(Start<Message>(), es, s)
  }

  lemma ReachableInv<Message(!new)>(s: System<Message>)
    requires Reachable(s)
    ensures Inv(s)
  {
    hide Inv, IsRun;
    var es: seq<Event<Message>> :| IsRun(Start<Message>(), es, s);
    InitiallyInv<Message>();
    RunKeepsInv(Start<Message>(), es, s);
  }

  // ---------- the plain map ----------

  type PlainMap<Message> = map<nat, Option<Reply<Message>>>

  /** From each serial whose caller has not collected to the reply it can collect. */
  function Awaited<Message>(s: System<Message>): PlainMap<Message>
    requires WellShaped(s)
  {
    map n | n in s.requests :: Channel(s.table, n, s.requests[n].home)
  }

  /** What each event does to a plain map. */
  function PlainNext<Message>(m: PlainMap<Message>, drawn: nat, e: Event<Message>): PlainMap<Message> {
    match e
    case Send(expectsReply) => if expectsReply then m[drawn := None] else m
    case Write(_) => m
    case WriteReturns(_) => m
    case WriteFails(n) => m - {n}
    case Deliver(reply) => m[reply.replySerial := Some(reply)]
    case Collect(n) => m - {n}
  }

  /** In every reachable state every step of the table is the step of the plain map. */
  lemma TableRefinesPlainMap<Message(!new)>(s: System<Message>, e: Event<Message>)
    requires Reachable(s) && WellShaped(s) && Enabled(s, e)
    ensures WellShaped(Next(s, e)) && Awaited(Next(s, e)) == PlainNext(Awaited(s), s.table.serial, e)
  {
    hide Inv, Next, Enabled, Awaited, PlainNext;
    ReachableInv(s);
    StepKeepsInv(s, e);
    InvIsShaped(Next(s, e));
    match e {
      case Send(expectsReply) => SendRefines(s, expectsReply);
      case Deliver(reply) => DeliverRefines(s, reply);
      case Collect(n) => CollectRefines(s, n);
      case _ => WriteRefines(s, e);
    }
  }

  lemma InvIsShaped<Message(!new)>(s: System<Message>)
    requires Inv(s)
    ensures WellShaped(s)
  {
  }

  lemma WriteRefines<Message(!new)>(s: System<Message>, e: Event<Message>)
    requires Inv(s) && (e.Write? || e.WriteReturns? || e.WriteFails?) && Enabled(s, e)
    ensures WellShaped(Next(s, e)) && Awaited(Next(s, e)) == PlainNext(Awaited(s), s.table.serial, e)
  {
    hide Channel, HomesAreExact, ChannelsAreTrue, SlotOf;
  }

  lemma SendRefines<Message(!new)>(s: System<Message>, expectsReply: bool)
    requires Inv(s) && Enabled(s, Send(expectsReply))
    ensures Awaited(Next(s, Send(expectsReply))) == PlainNext(Awaited(s), s.table.serial, Send(expectsReply))
  {
    hide Channel, HomesAreExact, ChannelsAreTrue, SlotOf, Registered;
    SendShape(s, expectsReply);
    OldChannelsStay(s, expectsReply);
  }

  lemma SendShape<Message(!new)>(s: System<Message>, expectsReply: bool)
    requires Inv(s) && Enabled(s, Send(expectsReply))
    ensures WellShaped(Next(s, Send(expectsReply)))
  {
    hide HomesAreExact, ChannelsAreTrue, SlotOf, Books;
  }

  lemma DeliverRefines<Message(!new)>(s: System<Message>, reply: Reply<Message>)
    requires Inv(s) && Enabled(s, Deliver(reply)) && WellShaped(Next(s, Deliver(reply)))
    ensures Awaited(Next(s, Deliver(reply))) == PlainNext(Awaited(s), s.table.serial, Deliver(reply))
  {
    hide Channel, HomesAreExact, ChannelsAreTrue, SlotOf, Posted;
    var s', r := Next(s, Deliver(reply)), reply.replySerial;
    DeliverFillsOwn(s, reply);
    forall n | n in s.requests && n != r
      ensures Channel(s'.table, n, s.requests[n].home) == Channel(s.table, n, s.requests[n].home)
    {
      assert HomeOf(s, n) == s.requests[n].home;
      OtherChannelsStay(s, reply, n);
    }
  }

  lemma DeliverFillsOwn<Message(!new)>(s: System<Message>, reply: Reply<Message>)
    requires Inv(s) && Enabled(s, Deliver(reply))
    ensures reply.replySerial in s.requests
    ensures WellShaped(Next(s, Deliver(reply)))
    ensures Channel(Posted(s.table, reply), reply.replySerial, s.requests[reply.replySerial].home) == Some(reply)
  {
    hide HomesAreExact, ChannelsAreTrue, SlotOf;
    ReplyIsRouted(s, reply.replySerial);
  }

  lemma CollectRefines<Message(!new)>(s: System<Message>, n: nat)
    requires Inv(s) && Enabled(s, Event<Message>.Collect(n)) && WellShaped(Next(s, Event<Message>.Collect(n)))
    ensures Awaited(Next(s, Event<Message>.Collect(n))) ==
            PlainNext(Awaited(s), s.table.serial, Event<Message>.Collect(n))
  {
    hide Channel, HomesAreExact, ChannelsAreTrue, SlotOf, Collected;
    var s' := Next(s, Event<Message>.Collect(n));
    forall k | k in s.requests && k != n
      ensures Channel(s'.table, k, s.requests[k].home) == Channel(s.table, k, s.requests[k].home)
    {
      assert HomeOf(s, k) == s.requests[k].home;
      CollectLeavesOthers(s, n, k);
    }
  }

  /** The reply a caller collects answers that caller's own message. */
  lemma OwnReplyIsCollected<Message(!new)>(s: System<Message>, n: nat)
    requires Reachable(s) && WellShaped(s) && Enabled(s, Event<Message>.Collect(n))
    ensures Channel(s.table, n, s.requests[n].home).value.replySerial == n
  {
    ReachableInv(s);
    hide SlotOf;
    assert HomeOf(s, n) == s.requests[n].home;
  }

  /** Every request has exactly one home, and no two requests share one. */
  lemma HomesAreExclusive<Message(!new)>(s: System<Message>, n: nat, k: nat)
    requires Reachable(s) && WellShaped(s) && n in s.requests
    ensures var slot := s.table.slots[SlotOf(n)];
            (!slot.ready && slot.serial == n) != (n in s.table.fallback)
    ensures k in s.requests && k != n && s.requests[n].home.InSlot? && s.requests[k].home.InSlot? ==>
            SlotOf(k) != SlotOf(n)
  {
    ReachableInv(s);
    hide SlotOf, ChannelsAreTrue;
    assert HomeOf(s, n) == s.requests[n].home;
    if k in s.requests {
      assert HomeOf(s, k) == s.requests[k].home;
    }
  }

  /** A reply the peer may send is never met with "unknown serial", and its channel
      has room for it. */
  lemma UnknownSerialIsUnreachable<Message(!new)>(s: System<Message>, reply: Reply<Message>)
    requires Reachable(s) && WellShaped(s) && Enabled(s, Deliver(reply))
    ensures Route(s.table, reply.replySerial) != UnknownSerial && Waiting(s.table, reply.replySerial).None?
  {
    ReachableInv(s);
    hide SlotOf, HomesAreExact, ChannelsAreTrue, Route, Waiting;
    ReplyIsRouted(s, reply.replySerial);
  }

  /** A reply is routed exactly to where its request is at home: one that answers a
      request already collected, or none that was ever sent, is unknown. */
  lemma RoutedExactlyHome<Message(!new)>(s: System<Message>, n: nat)
    requires Reachable(s) && WellShaped(s)
    ensures Route(s.table, n) == match HomeOf(s, n)
                                 case InSlot => ToSlot
                                 case InFallback => ToFallback
                                 case NoHome => UnknownSerial
  {
    ReachableInv(s);
    hide SlotOf, ChannelsAreTrue, HomeOf, Books;
  }

  /** It rests on registering before writing: a serial that is still to be drawn is
      unknown, so a reply to a message written before its registration would fail. */
  lemma UnregisteredSerialIsUnknown<Message(!new)>(s: System<Message>, n: nat)
    requires Reachable(s) && WellShaped(s) && n >= Drawn(s.table)
    ensures Route(s.table, n) == UnknownSerial
  {
    ReachableInv(s);
    hide SlotOf, ChannelsAreTrue, HomesAreExact;
    RoutedExactlyHome(s, n);
  }

  // ---------- slots and serials, in literals ----------

  function Sends<Message>(es: seq<Event<Message>>): nat {
    if es == [] then 0 else (if es[0].Send? then 1 else 0) + Sends(es[1..])
  }

  function SerialAfter(serial: nat, sends: nat): nat {
    (serial + sends) % 0x1_0000_0000
  }

  lemma StepDrawsSerial<Message(!new)>(s: System<Message>, e: Event<Message>)
    requires Inv(s) && Enabled(s, e)
    ensures Next(s, e).table.serial == SerialAfter(s.table.serial, if e.Send? then 1 else 0)
  {
    hide SlotOf, HomesAreExact, ChannelsAreTrue, Books, Channel;
  }

  lemma {:induction false} RunDrawsSerials<Message(!new)>(s: System<Message>, es: seq<Event<Message>>,
                                                          s': System<Message>)
    requires Inv(s) && IsRun(s, es, s')
    ensures s'.table.serial == SerialAfter(s.table.serial, Sends(es))
    decreases |es|
  {
    hide Inv, Next, Enabled, SerialAfter;
    if es == [] {
      SerialFits(s);
    } else {
      StepKeepsInv(s, es[0]);
      StepDrawsSerial(s, es[0]);
      RunDrawsSerials(Next(s, es[0]), es[1..], s');
      AfterMore(s.table.serial, if es[0].Send? then 1 else 0, Sends(es[1..]));
    }
  }

  lemma AfterMore(n: nat, a: nat, b: nat)
    ensures SerialAfter(SerialAfter(n, a), b) == SerialAfter(n, a + b)
  {
    var m := 0x1_0000_0000;
    var x, y := (n + a) % m + b, n + a + b;
    assert y - x == m * ((n + a) / m);
    assert y == m * (x / m + (n + a) / m) + x % m;
  }

  lemma SerialFits<Message(!new)>(s: System<Message>)
    requires Inv(s)
    ensures SerialAfter(s.table.serial, 0) == s.table.serial
  {
  }

  /** The `k`-th message sent has serial `k`; behind 2^32 - 1 comes 0. */
  lemma SerialsCountSends<Message(!new)>(es: seq<Event<Message>>, s: System<Message>)
    requires IsRun(Start<Message>(), es, s)
    ensures s.table.serial == (1 + Sends(es)) % 0x1_0000_0000
  {
    hide Inv, IsRun;
    InitiallyInv<Message>();
    RunDrawsSerials(Start<Message>(), es, s);
  }

  /** There are 56 slots. A request waits in the fallback exactly when an earlier one,
      not collected or lost, has the slot that its serial leads to. */
  lemma FallbackIffSlotIsTaken<Message(!new)>(s: System<Message>)
    requires Reachable(s) && WellShaped(s)
    ensures HomeOfNext(s.table, true) ==
            if exists n :: (n in s.requests || n in s.lost) && HomeOf(s, n).InSlot? && n % 56 == s.table.serial % 56
            then InFallback else InSlot
  {
    hide ChannelsAreTrue, Books;
    ReachableInv(s);
    var i := SlotOf(s.table.serial);
    if !s.table.slots[i].ready {
      var n := s.table.slots[i].serial;
      assert SlotOf(n) == i && HomeOf(s, n).InSlot?;
    }
    forall n | (n in s.requests || n in s.lost) && HomeOf(s, n).InSlot? && n % 56 == s.table.serial % 56
      ensures !s.table.slots[i].ready
    {
      assert SlotOf(n) == i;
    }
  }

  /** So it is never needed while no request that is not collected or lost is older
      than the last 55. */
  lemma RecentRequestsNeedNoFallback<Message(!new)>(s: System<Message>)
    requires Reachable(s) && WellShaped(s) && s.table.serial != 0
    requires forall n :: n in s.requests || n in s.lost ==> s.table.serial < n + 56
    ensures HomeOfNext(s.table, true) == InSlot
  {
    hide HomesAreExact, ChannelsAreTrue;
    ReachableInv(s);
    FallbackIffSlotIsTaken(s);
    forall n | n in s.requests || n in s.lost ensures n % 56 != s.table.serial % 56 {
      DifferentRests(n, s.table.serial);
    }
  }

  lemma DifferentRests(n: nat, k: nat)
    requires n < k < n + 56
    ensures n % 56 != k % 56
  {
    assert k - n == 56 * (k / 56 - n / 56) + (k % 56 - n % 56);
  }

  // ---------- conservation ----------

  function Busy<Message>(slots: seq<Slot<Message>>): nat {
    if slots == [] then 0 else (if slots[0].ready then 0 else 1) + Busy(slots[1..])
  }

  lemma {:induction false} BusyOfUpdate<Message>(slots: seq<Slot<Message>>, i: nat, slot: Slot<Message>)
    requires i < |slots|
    ensures Busy(slots[i := slot]) == Busy(slots) + (if slot.ready then 0 else 1) - (if slots[i].ready then 0 else 1)
  {
    if i == 0 {
      assert slots[i := slot][1..] == slots[1..];
    } else {
      assert slots[i := slot][1..] == slots[1..][i - 1 := slot];
      BusyOfUpdate(slots[1..], i - 1, slot);
    }
  }

  /** Busy slots and fallback entries together are as many as the requests not
      collected and the requests lost to a failed write. */
  predicate Conserved<Message>(s: System<Message>) {
    Busy(s.table.slots) + |s.table.fallback| == |s.requests| + |s.lost|
  }

  lemma {:induction false} NoneBusy<Message>(n: nat)
    ensures Busy(seq(n, _ => IdleSlot<Message>())) == 0
  {
    if n > 0 {
      assert seq(n, _ => IdleSlot<Message>())[1..] == seq(n - 1, _ => IdleSlot<Message>());
      NoneBusy<Message>(n - 1);
    }
  }

  lemma StepConserves<Message(!new)>(s: System<Message>, e: Event<Message>)
    requires Inv(s) && Conserved(s) && Enabled(s, e)
    ensures Conserved(Next(s, e))
  {
    match e {
      case Send(expectsReply) => SendConserves(s, expectsReply);
      case Deliver(reply) => DeliverConserves(s, reply);
      case Collect(n) => CollectConserves(s, n);
      case _ => WriteConserves(s, e);
    }
  }

  lemma WriteConserves<Message(!new)>(s: System<Message>, e: Event<Message>)
    requires Inv(s) && Conserved(s) && (e.Write? || e.WriteReturns? || e.WriteFails?) && Enabled(s, e)
    ensures Conserved(Next(s, e))
  {
    hide SlotOf, HomesAreExact, ChannelsAreTrue, Channel, Busy;
    var n := e.serial;
    if e.WriteFails? {
      SizeOfRemoval(s.requests, n);
    }
  }

  lemma SizeOfRemoval<X>(m: map<nat, X>, n: nat)
    requires n in m
    ensures |m - {n}| == |m| - 1
  {
    assert (m - {n})[n := m[n]] == m;
  }

  lemma SendConserves<Message(!new)>(s: System<Message>, expectsReply: bool)
    requires Inv(s) && Conserved(s) && Enabled(s, Send(expectsReply))
    ensures Conserved(Next(s, Send(expectsReply)))
  {
    hide SlotOf, HomesAreExact, ChannelsAreTrue, Channel, Busy;
    var i := SlotOf(s.table.serial);
    NextIsFree(s);
    BusyOfUpdate(s.table.slots, i, s.table.slots[i].(ready := false, serial := s.table.serial));
  }

  lemma DeliverConserves<Message(!new)>(s: System<Message>, reply: Reply<Message>)
    requires Inv(s) && Conserved(s) && Enabled(s, Deliver(reply))
    ensures Conserved(Next(s, Deliver(reply)))
  {
    hide SlotOf, HomesAreExact, ChannelsAreTrue, Channel, Busy;
    var i := SlotOf(reply.replySerial);
    ReplyIsRouted(s, reply.replySerial);
    BusyOfUpdate(s.table.slots, i, s.table.slots[i].(inbox := Some(reply)));
  }

  lemma CollectConserves<Message(!new)>(s: System<Message>, n: nat)
    requires Inv(s) && Conserved(s) && Enabled(s, Event<Message>.Collect(n))
    ensures Conserved(Next(s, Event<Message>.Collect(n)))
  {
    hide SlotOf, ChannelsAreTrue, Channel, Busy;
    var i := SlotOf(n);
    assert HomeOf(s, n) == s.requests[n].home;
    SizeOfRemoval(s.requests, n);
    BusyOfUpdate(s.table.slots, i, s.table.slots[i].(inbox := None, ready := true));
    if n in s.table.fallback {
      SizeOfRemoval(s.table.fallback, n);
    }
  }

  lemma {:induction false} RunConserves<Message(!new)>(s: System<Message>, es: seq<Event<Message>>, s': System<Message>)
    requires Inv(s) && Conserved(s) && IsRun(s, es, s')
    ensures Conserved(s')
    decreases |es|
  {
    if es != [] {
      hide Inv, Next, Enabled, Conserved;
      StepKeepsInv(s, es[0]);
      StepConserves(s, es[0]);
      RunConserves(Next(s, es[0]), es[1..], s');
    }
  }

  lemma ReachableConserves<Message(!new)>(s: System<Message>)
    requires Reachable(s)
    ensures Conserved(s)
  {
    hide Inv, IsRun, Conserved;
    var es: seq<Event<Message>> :| IsRun(Start<Message>(), es, s);
    InitiallyInv<Message>();
    StartConserves<Message>();
    RunConserves(Start<Message>(), es, s);
  }

  lemma NobodyHome<Message(!new)>(s: System<Message>)
    requires WellShaped(s) && HomesAreExact(s) && s.requests == map[] && s.lost == map[]
    ensures s.table.fallback == map[] && forall i :: 0 <= i < |s.table.slots| ==> s.table.slots[i].ready
  {
    hide SlotOf;
    assert forall n: nat :: HomeOf(s, n) == NoHome;
    forall i | 0 <= i < |s.table.slots| ensures s.table.slots[i].ready {
      assert !HomeOf(s, s.table.slots[i].serial).InSlot?;
    }
  }

  /** Conservation in every reachable state; and once every request has been
      collected and none was lost, every slot is ready and the fallback map empty. */
  lemma ConservationAndQuiescence<Message(!new)>(s: System<Message>)
    requires Reachable(s)
    ensures Conserved(s)
    ensures s.requests == map[] && s.lost == map[] ==>
              s.table.fallback == map[] && forall i :: 0 <= i < |s.table.slots| ==> s.table.slots[i].ready
  {
    hide HomesAreExact, ChannelsAreTrue, Books, Conserved, Reachable;
    ReachableInv(s);
    ReachableConserves(s);
    if s.requests == map[] && s.lost == map[] {
      NobodyHome(s);
    }
  }

  lemma StartConserves<Message(!new)>()
    ensures Conserved(Start<Message>())
  {
    NoneBusy<Message>(MAX_CONCURRENT_MESSAGES);
  }
}
