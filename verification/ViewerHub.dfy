/**
 The viewer hub: events fan out to subscribed clients, slow clients lose events instead of
 blocking the publisher.

 `Hub` is the sequential code; `State` is the same hub with publishers interleaved client by
 client under the shared lock, and subscriptions under the exclusive one.
 */
module ViewerHub {
  // ---------------------------------------------------------------------------
  // The code
  // ---------------------------------------------------------------------------

  /** A send that does not wait gets in. */
  predicate HasRoom(fill: nat, capacity: nat) {
    fill < capacity
  }

  class Channel<E> {
    const capacity: nat
    var closed: bool
    var buffer: seq<E>

    constructor (capacity: nat)
      ensures this.capacity == capacity && !closed && buffer == []
    {
      this.capacity := capacity;
      closed, buffer := false, [];
    }

    /** Closing twice is a fault, so it is a precondition. */
    method Close()
      requires !closed
      modifies this`closed
      ensures closed
    {
      closed := true;
    }

    /** A send that does not wait; sending on a closed channel is a fault. */
    method TrySend(e: E)
      requires !closed
      modifies this`buffer
      ensures buffer == if HasRoom(|old(buffer)|, capacity) then old(buffer) + [e] else old(buffer)
    {
      if |buffer| < capacity {
        buffer := buffer + [e];
      }
    }
  }

  class Hub<E> {
    var clients: set<Channel<E>>
    const maxClients: int
    const clientBuffer: nat

    ghost predicate Valid()
      reads this, clients
    {
      && (forall ch :: ch in clients ==> !ch.closed)
      && (maxClients > 0 ==> |clients| <= maxClients)
    }

    constructor (maxClients: int, clientBuffer: nat)
      ensures Valid() && clients == {} && this.maxClients == maxClients && this.clientBuffer == clientBuffer
    {
      clients := {};
      this.maxClients := maxClients;
      this.clientBuffer := clientBuffer;
    }

    /** A full hub hands out a channel that is already closed. */
    method Subscribe() returns (ch: Channel<E>)
      requires Valid()
      modifies this
      ensures Valid() && fresh(ch) && ch.buffer == [] && ch.capacity == clientBuffer
      ensures if maxClients > 0 && |old(clients)| >= maxClients
              then ch.closed && clients == old(clients)
              else !ch.closed && clients == old(clients) + {ch}
    {
      ch := new Channel(clientBuffer);
      if maxClients > 0 && |clients| >= maxClients {
        ch.Close();
        return;
      }
      clients := clients + {ch};
    }

    /** The closure handed to a subscriber; calling it again does nothing. */
    method Unsubscribe(ch: Channel<E>)
      requires Valid()
      modifies this, ch`closed
      ensures Valid() && clients == old(clients) - {ch}
      ensures ch.closed <==> old(ch.closed) || ch in old(clients)
    {
      if ch in clients {
        clients := clients - {ch};
        ch.Close();
      }
    }

    method Publish(e: E)
      requires Valid()
      modifies clients`buffer
      ensures Valid() && clients == old(clients)
      ensures forall ch :: ch in clients ==>
        ch.buffer == if |old(ch.buffer)| < ch.capacity then old(ch.buffer) + [e] else old(ch.buffer)
    {
      var rest := clients;
      while rest != {}
        invariant rest <= clients
        invariant forall ch :: ch in rest ==> ch.buffer == old(ch.buffer)
        invariant forall ch :: ch in clients && ch !in rest ==>
          ch.buffer == if HasRoom(|old(ch.buffer)|, ch.capacity) then old(ch.buffer) + [e] else old(ch.buffer)
        decreases |rest|
      {
        var ch :| ch in rest;
        ch.TrySend(e);
        rest := rest - {ch};
      }
    }
  }

  // ---------------------------------------------------------------------------
  // Interleavings
  // ---------------------------------------------------------------------------

  /** One publish call: who made it, the clients it started with, and those still ahead. */
  datatype Publication = Publication(author: nat, targets: set<nat>, remaining: set<nat>, active: bool)

  /** What happened to a channel: how often it was closed, how often something was sent after
      that, the publications it got in order, those it lost with the buffer fill at that moment,
      and how many wait to be read. */
  datatype Chan = Chan(closes: nat, badSends: nat, delivered: seq<nat>, lost: map<nat, nat>, waiting: nat)

  datatype State = State(maxClients: int, clientBuffer: nat, clients: set<nat>, chans: seq<Chan>,
                         publications: seq<Publication>)

  datatype Step =
    | Subscribe
    | Unsubscribe(ch: nat)
    | Begin(author: nat)
    | Offer(p: nat, ch: nat, reader: bool)
    | End(p: nat)
    | Read(ch: nat)

  function Start(maxClients: int, clientBuffer: nat): State {
    State(maxClients, clientBuffer, {}, [], [])
  }

  predicate NoReaders(s: State) {
    forall p :: 0 <= p < |s.publications| ==> !s.publications[p].active
  }

  predicate Enabled(s: State, e: Step) {
    match e
    case Subscribe => NoReaders(s)
    case Unsubscribe(ch) => NoReaders(s) && ch < |s.chans|
    case Begin(author) =>
      forall p :: 0 <= p < |s.publications| && s.publications[p].author == author ==> !s.publications[p].active
    case Offer(p, ch, reader) =>
      p < |s.publications| && s.publications[p].active && ch in s.publications[p].remaining && ch < |s.chans|
    case End(p) => p < |s.publications| && s.publications[p].active && s.publications[p].remaining == {}
    case Read(ch) => ch < |s.chans| && s.chans[ch].waiting > 0
  }

  function Closed(c: Chan): Chan {
    c.(closes := c.closes + 1)
  }

  /** The send that does not wait: into the buffer, or straight to a reader that is waiting. */
  function Offered(c: Chan, p: nat, capacity: nat, reader: bool): Chan {
    if c.closes > 0 then c.(badSends := c.badSends + 1)
    else if HasRoom(c.waiting, capacity) then c.(delivered := c.delivered + [p], waiting := c.waiting + 1)
    else if reader && c.waiting == 0 then c.(delivered := c.delivered + [p])
    else c.(lost := c.lost[p := c.waiting])
  }

  function Next(s: State, e: Step): State
    requires Enabled(s, e)
  {
    match e
    case Subscribe =>
      var n, c := |s.chans|, Chan(0, 0, [], map[], 0);
      if s.maxClients > 0 && |s.clients| >= s.maxClients then s.(chans := s.chans + [Closed(c)])
      else s.(chans := s.chans + [c], clients := s.clients + {n})
    case Unsubscribe(ch) =>
      if ch in s.clients then s.(clients := s.clients - {ch}, chans := s.chans[ch := Closed(s.chans[ch])]) else s
    case Begin(author) =>
      s.(publications := s.publications + [Publication(author, s.clients, s.clients, true)])
    case Offer(p, ch, reader) =>
      var pub := s.publications[p];
      s.(publications := s.publications[p := pub.(remaining := pub.remaining - {ch})],
         chans := s.chans[ch := Offered(s.chans[ch], p, s.clientBuffer, reader)])
    case End(p) => s.(publications := s.publications[p := s.publications[p].(active := false)])
    case Read(ch) => s.(chans := s.chans[ch := s.chans[ch].(waiting := s.chans[ch].waiting - 1)])
  }

  ghost predicate Leads(s: State, run: seq<Step>, t: State)
    decreases |run|
  {
    if run == [] then s == t
    else Enabled(s, run[0]) && Leads(Next(s, run[0]), run[1..], t)
  }

  /** A subscriber is registered, on a channel of its own, exactly when there is no positive limit or it
      is not reached; otherwise the channel comes closed.  A publish call addresses all registered
      clients. */
  lemma SubscribersAreAddressed(s: State, author: nat)
    requires Enabled(s, Subscribe) && forall c :: c in s.clients ==> c < |s.chans|
    ensures var t, c := Next(s, Subscribe), |s.chans|;
      && t.clients == (if s.maxClients <= 0 || |s.clients| < s.maxClients then s.clients + {c} else s.clients)
      && |t.chans| == c + 1 && t.chans[..c] == s.chans && t.chans[c].delivered == []
      && (t.chans[c].closes == 0 <==> c in t.clients)
    ensures Enabled(s, Begin(author)) ==>
      Next(s, Begin(author)).publications == s.publications + [Publication(author, s.clients, s.clients, true)]
  {
    assert |s.chans| !in s.clients;
  }

  // --- one publish call on its own ----------------------------------------------

  function Offers(p: nat, order: seq<nat>): (r: seq<Step>)
    ensures |r| == |order|
  {
    seq(|order|, i requires 0 <= i < |order| => Offer(p, order[i], false))
  }

  /** What the loop over the clients leaves: each channel in `order` was offered the event once,
      and the call is over. */
  ghost predicate OfferedOnce(s: State, p: nat, order: seq<nat>, t: State) {
    && p < |s.publications| && |t.chans| == |s.chans|
    && t.clients == s.clients && t.clientBuffer == s.clientBuffer && t.maxClients == s.maxClients
    && t.publications == s.publications[p := s.publications[p].(remaining := {}, active := false)]
    && forall c :: 0 <= c < |s.chans| ==>
         t.chans[c] == if c in order then Offered(s.chans[c], p, s.clientBuffer, false) else s.chans[c]
  }

  lemma {:induction false} OffersAreARun(s: State, p: nat, order: seq<nat>) returns (t: State)
    requires p < |s.publications| && s.publications[p].active
    requires forall c :: c in order <==> c in s.publications[p].remaining
    requires forall c :: c in order ==> c < |s.chans|
    requires forall i, j :: 0 <= i < j < |order| ==> order[i] != order[j]
    ensures Leads(s, Offers(p, order) + [End(p)], t) && OfferedOnce(s, p, order, t)
    decreases |order|
  {
    var run := Offers(p, order) + [End(p)];
    if order == [] {
      t := Next(s, End(p));
      assert run == [End(p)] && run[1..] == [];
    } else {
      var e := Offer(p, order[0], false);
      assert order == [order[0]] + order[1..];
      assert order[0] in order;
      t := OffersAreARun(Next(s, e), p, order[1..]);
      assert run[1..] == Offers(p, order[1..]) + [End(p)];
    }
  }

  /** A publish call that runs alone, in whatever order it meets the clients, is a run of steps: it
      offers the event once to every client, as `Hub.Publish` does, and to nobody else. */
  lemma PublishIsARun(s: State, author: nat, order: seq<nat>) returns (t: State)
    requires ChannelsOpen(s.clients, s.chans) && Enabled(s, Begin(author))
    requires forall c :: c in order <==> c in s.clients
    requires forall i, j :: 0 <= i < j < |order| ==> order[i] != order[j]
    ensures Leads(s, [Begin(author)] + Offers(|s.publications|, order) + [End(|s.publications|)], t)
    ensures t.clients == s.clients && |t.chans| == |s.chans|
    ensures forall c :: 0 <= c < |s.chans| ==>
      t.chans[c] == if c in s.clients then Offered(s.chans[c], |s.publications|, s.clientBuffer, false) else s.chans[c]
  {
    var p := |s.publications|;
    var run := [Begin(author)] + Offers(p, order) + [End(p)];
    t := OffersAreARun(Next(s, Begin(author)), p, order);
    assert run[1..] == Offers(p, order) + [End(p)];
  }

  /** Registered channels are open, all others were closed once; nobody sends to a closed one. */
  ghost predicate ChannelsOpen(clients: set<nat>, chans: seq<Chan>) {
    && (forall c :: c in clients ==> c < |chans|)
    && (forall c :: 0 <= c < |chans| ==>
          chans[c].badSends == 0 && chans[c].closes == if c in clients then 0 else 1)
  }

  /** A running publication still serves the clients it started with. */
  ghost predicate PublicationsSound(clients: set<nat>, pubs: seq<Publication>) {
    forall p :: 0 <= p < |pubs| ==>
      pubs[p].remaining <= pubs[p].targets &&
      (if pubs[p].active then pubs[p].targets == clients else pubs[p].remaining == {})
  }

  ghost predicate ChannelsSound(s: State) {
    && (s.maxClients > 0 ==> |s.clients| <= s.maxClients)
    && ChannelsOpen(s.clients, s.chans)
    && PublicationsSound(s.clients, s.publications)
  }

  /** Publication `p` is through with channel `c`. */
  predicate Passed(s: State, p: nat, c: nat) {
    p < |s.publications| && c in s.publications[p].targets && c !in s.publications[p].remaining
  }

  predicate SameAuthor(s: State, p: nat, q: nat) {
    p < |s.publications| && q < |s.publications| && s.publications[p].author == s.publications[q].author
  }

  /** Per channel: each passed publication was delivered once or lost, nothing else was; losses
      happened on a full buffer; one author's publications arrive in the order of its calls. */
  ghost predicate DeliverySound(s: State, c: nat)
    requires c < |s.chans|
  {
    var ch := s.chans[c];
    && (forall p :: p in ch.delivered || p in ch.lost <==> Passed(s, p, c))
    && (forall p :: p in ch.delivered ==> p !in ch.lost)
    && (forall p :: p in ch.lost ==> ch.lost[p] >= s.clientBuffer)
    && ch.waiting <= s.clientBuffer
    && (forall i, j :: 0 <= i < j < |ch.delivered| ==> ch.delivered[i] != ch.delivered[j])
    && (forall i, j :: 0 <= i < j < |ch.delivered| && SameAuthor(s, ch.delivered[i], ch.delivered[j]) ==>
          ch.delivered[i] < ch.delivered[j])
  }

  /** An author's earlier calls are over. */
  ghost predicate AuthorsSequential(s: State) {
    forall p, q :: 0 <= p < q < |s.publications| && s.publications[p].author == s.publications[q].author ==>
      !s.publications[p].active
  }

  /** Targets are channels that existed when the publication began. */
  ghost predicate TargetsExist(s: State) {
    forall p, c :: 0 <= p < |s.publications| && c in s.publications[p].targets ==> c < |s.chans|
  }

  ghost predicate Sound(s: State) {
    && ChannelsSound(s) && AuthorsSequential(s) && TargetsExist(s)
    && forall c :: 0 <= c < |s.chans| ==> DeliverySound(s, c)
  }

  lemma SubscribeKeepsChannels(s: State)
    requires ChannelsSound(s) && Enabled(s, Subscribe)
    ensures ChannelsSound(Next(s, Subscribe))
  {
  }

  lemma UnsubscribeKeepsChannels(s: State, ch: nat)
    requires ChannelsSound(s) && Enabled(s, Unsubscribe(ch))
    ensures ChannelsSound(Next(s, Unsubscribe(ch)))
  {
  }

  lemma OfferKeepsChannels(s: State, p: nat, ch: nat, reader: bool)
    requires ChannelsSound(s) && Enabled(s, Offer(p, ch, reader))
    ensures ChannelsSound(Next(s, Offer(p, ch, reader)))
  {
    assert ch in s.clients;
  }

  lemma StepKeepsChannels(s: State, e: Step)
    requires ChannelsSound(s) && Enabled(s, e)
    ensures ChannelsSound(Next(s, e))
  {
    if e.Subscribe? {
      SubscribeKeepsChannels(s);
    } else if e.Unsubscribe? {
      UnsubscribeKeepsChannels(s, e.ch);
    } else if e.Offer? {
      OfferKeepsChannels(s, e.p, e.ch, e.reader);
    }
  }

  lemma StepKeepsAuthors(s: State, e: Step)
    requires AuthorsSequential(s) && TargetsExist(s) && ChannelsSound(s) && Enabled(s, e)
    ensures AuthorsSequential(Next(s, e)) && TargetsExist(Next(s, e))
  {
  }

  lemma OfferKeepsDelivery(s: State, p: nat, ch: nat, reader: bool)
    requires Sound(s) && Enabled(s, Offer(p, ch, reader))
    ensures DeliverySound(Next(s, Offer(p, ch, reader)), ch)
  {
    var t := Next(s, Offer(p, ch, reader));
    var before, after := s.chans[ch], t.chans[ch];
    assert DeliverySound(s, ch);
    assert ch in s.clients;
    assert !Passed(s, p, ch) && Passed(t, p, ch);
    assert p !in before.delivered && p !in before.lost;
    forall q ensures Passed(t, q, ch) <==> Passed(s, q, ch) || q == p {
    }
    forall i | 0 <= i < |before.delivered| && SameAuthor(s, before.delivered[i], p)
      ensures before.delivered[i] < p
    {
      assert before.delivered[i] != p by {
        assert before.delivered[i] in before.delivered;
      }
    }
  }

  /** Nothing about the channel changed but what its reader took. */
  ghost predicate SameView(s: State, t: State, c: nat)
    requires c < |s.chans| && c < |t.chans|
  {
    && t.clientBuffer == s.clientBuffer && t.chans[c].waiting <= s.chans[c].waiting
    && t.chans[c].delivered == s.chans[c].delivered && t.chans[c].lost == s.chans[c].lost
    && (forall p :: Passed(t, p, c) <==> Passed(s, p, c))
    && (forall p: nat, q: nat :: p < |s.publications| && q < |s.publications| ==>
          (SameAuthor(t, p, q) <==> SameAuthor(s, p, q)))
  }

  lemma SameViewKeepsDelivery(s: State, t: State, c: nat)
    requires c < |s.chans| && c < |t.chans| && SameView(s, t, c) && DeliverySound(s, c)
    ensures DeliverySound(t, c)
  {
    forall i | 0 <= i < |s.chans[c].delivered| ensures s.chans[c].delivered[i] < |s.publications| {
      assert s.chans[c].delivered[i] in s.chans[c].delivered;
      assert Passed(s, s.chans[c].delivered[i], c);
    }
  }

  lemma OtherSeesTheSame(s: State, e: Step, c: nat)
    requires Sound(s) && Enabled(s, e) && c < |s.chans| && !(e.Offer? && e.ch == c)
    ensures c < |Next(s, e).chans| && SameView(s, Next(s, e), c)
  {
  }

  lemma NewChannelIsSound(s: State, e: Step, c: nat)
    requires Sound(s) && Enabled(s, e) && |s.chans| <= c < |Next(s, e).chans|
    ensures DeliverySound(Next(s, e), c)
  {
    forall p ensures !Passed(Next(s, e), p, c) {
    }
  }

  lemma OtherKeepsDelivery(s: State, e: Step, c: nat)
    requires Sound(s) && Enabled(s, e) && c < |Next(s, e).chans| && !(e.Offer? && e.ch == c)
    ensures DeliverySound(Next(s, e), c)
  {
    if c < |s.chans| {
      OtherSeesTheSame(s, e, c);
      SameViewKeepsDelivery(s, Next(s, e), c);
    } else {
      NewChannelIsSound(s, e, c);
    }
  }

  lemma {:induction false} RunKeepsSound(s: State, run: seq<Step>, t: State)
    requires Sound(s) && Leads(s, run, t)
    ensures Sound(t)
    decreases |run|
  {
    if run != [] {
      var e := run[0];
      var s' := Next(s, e);
      StepKeepsChannels(s, e);
      StepKeepsAuthors(s, e);
      forall c | 0 <= c < |s'.chans| ensures DeliverySound(s', c) {
        if e.Offer? && e.ch == c {
          OfferKeepsDelivery(s, e.p, e.ch, e.reader);
        } else {
          OtherKeepsDelivery(s, e, c);
        }
      }
      RunKeepsSound(s', run[1..], t);
    }
  }

  lemma {:induction false} RunKeepsLimits(s: State, run: seq<Step>, t: State)
    requires Leads(s, run, t)
    ensures t.maxClients == s.maxClients && t.clientBuffer == s.clientBuffer
    decreases |run|
  {
    if run != [] {
      RunKeepsLimits(Next(s, run[0]), run[1..], t);
    }
  }

  // ---------------------------------------------------------------------------
  // Main results
  // ---------------------------------------------------------------------------

  /** In every interleaving: no channel is closed twice or sent to after its close, and the
      number of clients stays within a positive limit. */
  lemma HubNeverFaults(maxClients: int, clientBuffer: nat, run: seq<Step>, t: State)
    requires Leads(Start(maxClients, clientBuffer), run, t)
    ensures forall c :: 0 <= c < |t.chans| ==> t.chans[c].closes <= 1 && t.chans[c].badSends == 0
    ensures maxClients > 0 ==> |t.clients| <= maxClients
  {
    RunKeepsSound(Start(maxClients, clientBuffer), run, t);
    RunKeepsLimits(Start(maxClients, clientBuffer), run, t);
  }

  /** Once a publish call is over, each client it started with got the event exactly once, or
      lost it while its buffer was full; nobody else got it. */
  lemma EveryClientServedOnce(maxClients: int, clientBuffer: nat, run: seq<Step>, t: State, p: nat, c: nat)
    requires Leads(Start(maxClients, clientBuffer), run, t)
    requires p < |t.publications| && !t.publications[p].active && c < |t.chans|
    ensures var ch := t.chans[c];
      && (p in ch.delivered || p in ch.lost <==> c in t.publications[p].targets)
      && !(p in ch.delivered && p in ch.lost)
      && (p in ch.lost ==> ch.lost[p] >= clientBuffer)
      && (forall i, j :: 0 <= i < j < |ch.delivered| ==> !(ch.delivered[i] == p && ch.delivered[j] == p))
  {
    RunKeepsSound(Start(maxClients, clientBuffer), run, t);
    RunKeepsLimits(Start(maxClients, clientBuffer), run, t);
    assert DeliverySound(t, c);
    assert Passed(t, p, c) <==> c in t.publications[p].targets;
  }

  /** Each client sees one author's events in the order in which the author published them. */
  lemma AuthorsOrderIsKept(maxClients: int, clientBuffer: nat, run: seq<Step>, t: State, c: nat, i: nat, j: nat)
    requires Leads(Start(maxClients, clientBuffer), run, t)
    requires c < |t.chans| && i < j < |t.chans[c].delivered|
    requires SameAuthor(t, t.chans[c].delivered[i], t.chans[c].delivered[j])
    ensures t.chans[c].delivered[i] < t.chans[c].delivered[j]
  {
    RunKeepsSound(Start(maxClients, clientBuffer), run, t);
    assert DeliverySound(t, c);
  }
}
