/** How many consumers the signalling of packet_queue_add_item is good for.

It signals only when it adds to an empty queue (packet_queue.c:43-48).  Here any number of consumers
call packet_queue_get_next_item again and again, and any number of packets are added. */
module QueueSignals {
  import opened Media
  import opened Runs

  /** The length of the queue, and how many consumers are elsewhere, about to look into the queue, and
      asleep without having been signalled. */
  datatype State = State(len: nat, elsewhere: nat, ready: nat, asleep: nat)

  datatype Action =
    | Call      // a consumer calls packet_queue_get_next_item
    | Look      // a consumer has the mutex: it takes a packet or goes to sleep
    | Add       // a producer adds a packet
    | Spurious  // a sleeper wakes up without a signal

  function Next(s: State, a: Action): Option<State> {
    match a
    case Call =>
      if s.elsewhere == 0 then None else Some(s.(elsewhere := s.elsewhere - 1, ready := s.ready + 1))
    case Look =>
      if s.ready == 0 then None
      else if s.len == 0 then Some(s.(ready := s.ready - 1, asleep := s.asleep + 1))
      else Some(s.(len := s.len - 1, ready := s.ready - 1, elsewhere := s.elsewhere + 1))
    case Add =>
      if s.len == 0 && s.asleep > 0 then Some(s.(len := 1, asleep := s.asleep - 1, ready := s.ready + 1))
      else Some(s.(len := s.len + 1))
    case Spurious =>
      if s.asleep == 0 then None else Some(s.(asleep := s.asleep - 1, ready := s.ready + 1))
  }

  function Init(consumers: nat): State {
    State(0, consumers, 0, 0)
  }

  ghost predicate Reachable(consumers: nat, s: State) {
    Reaches(Next, Init(consumers), s)
  }

  /** A consumer sleeps although there are packets, and none is on its way to take them. */
  predicate Starves(s: State) {
    s.len > 0 && s.asleep > 0 && s.ready == 0
  }

  /** Of at most one consumer, none sleeps beside a packet. */
  predicate SafeForOne(s: State) {
    s.elsewhere + s.ready + s.asleep <= 1 && (s.asleep > 0 ==> s.len == 0)
  }

  lemma OneConsumerIsSafe(consumers: nat, s: State)
    requires consumers <= 1 && Reachable(consumers, s)
    ensures SafeForOne(s)
  {
    HoldsWhereReached(Next, Init(consumers), SafeForOne, s);
  }

  lemma TwoConsumersCanStarve(consumers: nat) returns (s: State)
    requires consumers >= 2
    ensures Reachable(consumers, s) && Starves(s)
  {
    var start := Init(consumers);
    ReachesStart(Next, start);
    s := GoOn(Next, start, start, Call);
    s := GoOn(Next, start, s, Call);
    s := GoOn(Next, start, s, Look);
    s := GoOn(Next, start, s, Look);
    s := GoOn(Next, start, s, Add);
    s := GoOn(Next, start, s, Add);
    s := GoOn(Next, start, s, Look);
  }

  /** The signalling suffices exactly for one blocking consumer, which is what each queue of the program
      has. */
  lemma StarvationIff(consumers: nat)
    ensures (exists s :: Reachable(consumers, s) && Starves(s)) <==> consumers >= 2
  {
    if consumers >= 2 {
      var s := TwoConsumersCanStarve(consumers);
    } else if s :| Reachable(consumers, s) && Starves(s) {
      OneConsumerIsSafe(consumers, s);
      assert false;
    }
  }
}
