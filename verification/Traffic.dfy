/** Transaction ids of the traffic generator: hardware/tb/dpi/traffic_generator.cpp. */
module Traffic {

  const Wrap: nat := 0x1_0000_0000

  /** uint32_t subtraction. */
  function Sub32(a: nat, b: nat): (r: nat)
    ensures r < Wrap
  {
    (a - b) % Wrap
  }

  /** The time since `start`, as far as 32 bits show it. */
  ghost function Elapsed(now: nat, start: nat): nat {
    (now - start) % Wrap
  }

  lemma {:induction false} ElapsedExact(now: nat, start: nat)
    ensures Elapsed(now, start) == now - start <==> 0 <= now - start < Wrap
  {
  }

  /** The wrapped difference of two wrapped times is the wrapped elapsed time. */
  lemma {:induction false} Sub32OfTimes(now: nat, start: nat)
    ensures Sub32(now % Wrap, start % Wrap) == Elapsed(now, start)
  {
  }

  type Addr = bv32

  datatype Request = Request(addr: Addr, id: nat)

  /** a with the bits under the mask taken from b. */
  function Merge(a: Addr, b: Addr, mask: Addr): (r: Addr)
    ensures r & mask == b & mask && r & !mask == a & !mask
  {
    (a & !mask) | (b & mask)
  }

  function Align(a: Addr): (r: Addr)
    ensures r & 3 == 0 && r | 3 == a | 3
  {
    (a >> 2) << 2
  }

  /** The address of a request: a random one inside the TCDM, possibly moved to the sequential region of
      the tile, on a word boundary. */
  function Address(random: Addr, base: Addr, mask: Addr, tile: Addr, seqMask: Addr, local: bool): Addr {
    var a := Merge(random, base, mask);
    Align(if local then Merge(a, seqMask, tile) else a)
  }

  // ---------------------------------------------------------------------------------------------
  // Id pools
  // ---------------------------------------------------------------------------------------------

  /** 0, 1, ..., k - 1 */
  function IdsBelow(k: nat): (s: seq<nat>)
    ensures |s| == k
  {
    if k == 0 then [] else IdsBelow(k - 1) + [k - 1]
  }

  lemma {:induction false} IdsBelowOnce(k: nat, x: nat)
    ensures multiset(IdsBelow(k))[x] == if x < k then 1 else 0
  {
    if k > 0 {
      IdsBelowOnce(k - 1, x);
    }
  }

  function Ids(q: seq<Request>): (s: seq<nat>)
    ensures |s| == |q|
    ensures forall i {:trigger s[i]} {:trigger q[i]} :: 0 <= i < |q| ==> s[i] == q[i].id
  {
    seq(|q|, i requires 0 <= i < |q| => q[i].id)
  }

  lemma {:induction false} IdsAppend(q: seq<Request>, r: Request)
    ensures Ids(q + [r]) == Ids(q) + [r.id]
  {
  }

  lemma {:induction false} IdsTail(q: seq<Request>)
    requires q != []
    ensures Ids(q) == [q[0].id] + Ids(q[1..])
  {
  }

  /** In how many places id x is: free, queued and in flight. */
  ghost function Places(free: seq<nat>, queue: seq<Request>, flight: set<nat>, x: nat): nat {
    multiset(free)[x] + multiset(Ids(queue))[x] + (if x in flight then 1 else 0)
  }

  /** Each of n ids is in exactly one place, and no other id anywhere. */
  ghost predicate Whole(free: seq<nat>, queue: seq<Request>, flight: set<nat>, n: nat) {
    forall x: nat {:trigger Places(free, queue, flight, x)} :: Places(free, queue, flight, x) == if x < n then 1 else 0
  }

  ghost predicate NoRepeats(s: seq<nat>) {
    forall i, j :: 0 <= i < j < |s| ==> s[i] != s[j]
  }

  lemma {:induction false} RepeatCounts(s: seq<nat>, i: nat, j: nat)
    requires i < j < |s| && s[i] == s[j]
    ensures multiset(s)[s[i]] >= 2
  {
    assert s == s[..j] + [s[j]] + s[j + 1..];
    assert s[i] in s[..j];
    assert multiset(s) == multiset(s[..j]) + multiset{s[j]} + multiset(s[j + 1..]);
  }

  /** So no id repeats, none is in two pools, and none is missing. */
  lemma {:induction false} Partition(n: nat, free: seq<nat>, queue: seq<Request>, flight: set<nat>)
    requires Whole(free, queue, flight, n)
    ensures NoRepeats(free) && NoRepeats(Ids(queue))
    ensures forall x: nat ::
              && (x < n <==> x in free || x in Ids(queue) || x in flight)
              && !(x in free && x in Ids(queue)) && !(x in free && x in flight) && !(x in Ids(queue) && x in flight)
  {
    forall x: nat
      ensures x < n <==> x in free || x in Ids(queue) || x in flight
      ensures !(x in free && x in Ids(queue)) && !(x in free && x in flight) && !(x in Ids(queue) && x in flight)
    {
      InOnePlace(n, free, queue, flight, x);
    }
    forall i, j | 0 <= i < j < |free| ensures free[i] != free[j] {
      if free[i] == free[j] {
        RepeatCounts(free, i, j);
        InOnePlace(n, free, queue, flight, free[i]);
      }
    }
    var ids := Ids(queue);
    forall i, j | 0 <= i < j < |ids| ensures ids[i] != ids[j] {
      if ids[i] == ids[j] {
        RepeatCounts(ids, i, j);
        InOnePlace(n, free, queue, flight, ids[i]);
      }
    }
  }

  lemma {:induction false} InOnePlace(n: nat, free: seq<nat>, queue: seq<Request>, flight: set<nat>, x: nat)
    requires Whole(free, queue, flight, n)
    ensures multiset(free)[x] + multiset(Ids(queue))[x] + (if x in flight then 1 else 0) == if x < n then 1 else 0
    ensures x in free <==> multiset(free)[x] > 0
    ensures x in Ids(queue) <==> multiset(Ids(queue))[x] > 0
  {
    assert Places(free, queue, flight, x) == if x < n then 1 else 0;
  }

  // ---------------------------------------------------------------------------------------------
  // The histogram
  // ---------------------------------------------------------------------------------------------

  /** The sum of all counts. */
  ghost function Total(h: map<nat, nat>): nat {
    if h == map[] then 0 else
      assert h.Keys != {} by { var k :| k in h; }
      var k :| k in h.Keys;
      h[k] + Total(h - {k})
  }

  lemma {:induction false} TotalWithout(h: map<nat, nat>, k: nat)
    requires k in h
    ensures Total(h) == h[k] + Total(h - {k})
    decreases |h|
  {
    var l :| l in h.Keys && Total(h) == h[l] + Total(h - {l});
    if l != k {
      TotalWithout(h - {l}, k);
      TotalWithout(h - {k}, l);
      assert h - {l} - {k} == h - {k} - {l};
    }
  }

  function CountOf(h: map<nat, nat>, x: nat): nat {
    if x in h then h[x] else 0
  }

  lemma {:induction false} TotalBump(h: map<nat, nat>, x: nat)
    ensures Total(h[x := CountOf(h, x) + 1]) == Total(h) + 1
  {
    var h' := h[x := CountOf(h, x) + 1];
    TotalWithout(h', x);
    assert h' - {x} == h - {x};
    if x in h {
      TotalWithout(h, x);
    } else {
      assert h - {x} == h;
    }
  }

  // ---------------------------------------------------------------------------------------------
  // The generator
  // ---------------------------------------------------------------------------------------------

  /** A core and one of its transaction ids. */
  datatype Txn = Txn(core: nat, id: nat)

  function FreeOf(m: map<nat, seq<nat>>, c: nat): seq<nat> { if c in m then m[c] else [] }

  function QueueOf(m: map<nat, seq<Request>>, c: nat): seq<Request> { if c in m then m[c] else [] }

  function FlightOf(m: map<nat, set<nat>>, c: nat): set<nat> { if c in m then m[c] else {} }

  /** How many ids a core has. */
  function Owned(c: nat, cores: nat, ids: nat, initialized: bool): nat {
    if initialized && c < cores then ids else 0
  }

  /** The ids of core c are each in exactly one place. */
  ghost predicate CoreOk(c: nat, tranId: map<nat, seq<nat>>, requests: map<nat, seq<Request>>, flight: map<nat, set<nat>>, owned: nat) {
    Whole(FreeOf(tranId, c), QueueOf(requests, c), FlightOf(flight, c), owned)
  }

  ghost predicate PoolsOk(tranId: map<nat, seq<nat>>, requests: map<nat, seq<Request>>, flight: map<nat, set<nat>>, cores: nat, ids: nat, initialized: bool) {
    forall c: nat {:trigger CoreOk(c, tranId, requests, flight, Owned(c, cores, ids, initialized))} ::
      CoreOk(c, tranId, requests, flight, Owned(c, cores, ids, initialized))
  }

  /** An outstanding transaction: queued, or accepted and not answered. */
  predicate Outstanding(x: Txn, requests: map<nat, seq<Request>>, flight: map<nat, set<nat>>) {
    x.id in Ids(QueueOf(requests, x.core)) || x.id in FlightOf(flight, x.core)
  }

  /** Exactly the outstanding transactions have a birth, and their starting cycle is it. */
  ghost predicate BornOk(x: Txn, requests: map<nat, seq<Request>>, flight: map<nat, set<nat>>, birth: map<Txn, nat>, starting: map<Txn, nat>) {
    && (x in birth <==> Outstanding(x, requests, flight))
    && (x in birth ==> x in starting && starting[x] == birth[x] % Wrap)
  }

  ghost predicate BirthsOk(requests: map<nat, seq<Request>>, flight: map<nat, set<nat>>, birth: map<Txn, nat>, starting: map<Txn, nat>) {
    forall x {:trigger BornOk(x, requests, flight, birth, starting)} :: BornOk(x, requests, flight, birth, starting)
  }

  lemma {:induction false} EmptyPool(free: seq<nat>, queue: seq<Request>, flight: set<nat>)
    requires Whole(free, queue, flight, 0)
    ensures free == [] && queue == [] && flight == {}
  {
    forall x: nat ensures multiset(free)[x] == 0 && multiset(Ids(queue))[x] == 0 && x !in flight {
      assert Places(free, queue, flight, x) == 0;
    }
    NothingInside(free);
    NothingInside(Ids(queue));
  }

  lemma {:induction false} NothingInside(s: seq<nat>)
    requires forall x: nat {:trigger multiset(s)[x]} :: multiset(s)[x] == 0
    ensures |s| == 0
  {
    assert multiset(s) == multiset{};
    assert |multiset(s)| == |s|;
  }

  lemma {:induction false} FullPool(n: nat)
    ensures Whole(IdsBelow(n), [], {}, n)
  {
    assert Ids([]) == [];
    forall x: nat ensures Places(IdsBelow(n), [], {}, x) == if x < n then 1 else 0 {
      IdsBelowOnce(n, x);
    }
  }

  lemma {:induction false} TakeId(n: nat, free: seq<nat>, queue: seq<Request>, flight: set<nat>, r: Request)
    requires free != [] && r.id == free[0] && Whole(free, queue, flight, n)
    ensures r.id !in Ids(queue) && r.id !in flight && Whole(free[1..], queue + [r], flight, n)
  {
    InOnePlace(n, free, queue, flight, r.id);
    assert free[0] in free;
    assert free == [free[0]] + free[1..];
    IdsAppend(queue, r);
    forall x: nat ensures Places(free[1..], queue + [r], flight, x) == if x < n then 1 else 0 {
      assert Places(free, queue, flight, x) == if x < n then 1 else 0;
    }
  }

  lemma {:induction false} AcceptId(n: nat, free: seq<nat>, queue: seq<Request>, flight: set<nat>)
    requires queue != [] && Whole(free, queue, flight, n)
    ensures queue[0].id !in flight && Whole(free, queue[1..], flight + {queue[0].id}, n)
  {
    var id := queue[0].id;
    IdsTail(queue);
    InOnePlace(n, free, queue, flight, id);
    assert Ids(queue)[0] == id;
    forall x: nat ensures Places(free, queue[1..], flight + {id}, x) == if x < n then 1 else 0 {
      assert Places(free, queue, flight, x) == if x < n then 1 else 0;
    }
  }

  lemma {:induction false} ReturnId(n: nat, free: seq<nat>, queue: seq<Request>, flight: set<nat>, id: nat)
    requires Whole(free, queue, flight, n) && id in flight
    ensures id !in Ids(queue) && Whole(free + [id], queue, flight - {id}, n)
  {
    InOnePlace(n, free, queue, flight, id);
    forall x: nat ensures Places(free + [id], queue, flight - {id}, x) == if x < n then 1 else 0 {
      assert Places(free, queue, flight, x) == if x < n then 1 else 0;
    }
  }

  /** Returning an id keeps every id in one place iff it was in flight: a response for any other id, answered
      already, still queued or never issued, duplicates it. */
  lemma {:induction false} ReturnIff(n: nat, free: seq<nat>, queue: seq<Request>, flight: set<nat>, id: nat)
    requires Whole(free, queue, flight, n)
    ensures Whole(free + [id], queue, flight - {id}, n) <==> id in flight
  {
    if id in flight {
      ReturnId(n, free, queue, flight, id);
    } else {
      assert Places(free, queue, flight, id) == if id < n then 1 else 0;
      assert Places(free + [id], queue, flight - {id}, id) == Places(free, queue, flight, id) + 1;
    }
  }

  lemma {:induction false} NothingYet(cores: nat, ids: nat)
    ensures PoolsOk(map[], map[], map[], cores, ids, false) && BirthsOk(map[], map[], map[], map[])
  {
    forall c: nat ensures CoreOk(c, map[], map[], map[], Owned(c, cores, ids, false)) {
      FullPool(0);
    }
    forall x ensures BornOk(x, map[], map[], map[], map[]) {
      assert Ids([]) == [];
    }
  }

  /** Before the first request everything is empty. */
  lemma {:induction false} AllEmpty(tranId: map<nat, seq<nat>>, requests: map<nat, seq<Request>>, flight: map<nat, set<nat>>, cores: nat, ids: nat)
    requires PoolsOk(tranId, requests, flight, cores, ids, false)
    ensures forall c: nat {:trigger FreeOf(tranId, c)} :: FreeOf(tranId, c) == []
    ensures forall c: nat {:trigger QueueOf(requests, c)} :: QueueOf(requests, c) == []
    ensures forall c: nat {:trigger FlightOf(flight, c)} :: FlightOf(flight, c) == {}
  {
    forall c: nat ensures FreeOf(tranId, c) == [] && QueueOf(requests, c) == [] && FlightOf(flight, c) == {} {
      assert CoreOk(c, tranId, requests, flight, Owned(c, cores, ids, false));
      EmptyPool(FreeOf(tranId, c), QueueOf(requests, c), FlightOf(flight, c));
    }
  }

  lemma {:induction false} AllFree(tranId: map<nat, seq<nat>>, requests: map<nat, seq<Request>>, flight: map<nat, set<nat>>, cores: nat, ids: nat)
    requires forall c: nat {:trigger FreeOf(tranId, c)} :: FreeOf(tranId, c) == if c < cores then IdsBelow(ids) else []
    requires forall c: nat {:trigger QueueOf(requests, c)} :: QueueOf(requests, c) == []
    requires forall c: nat {:trigger FlightOf(flight, c)} :: FlightOf(flight, c) == {}
    ensures PoolsOk(tranId, requests, flight, cores, ids, true)
  {
    forall c: nat ensures CoreOk(c, tranId, requests, flight, Owned(c, cores, ids, true)) {
      FullPool(Owned(c, cores, ids, true));
    }
  }

  /** The pools after a core has changed some of its three parts. */
  lemma {:induction false} SomeParts(core: nat, tranId: map<nat, seq<nat>>, requests: map<nat, seq<Request>>, flight: map<nat, set<nat>>,
                                     tranId': map<nat, seq<nat>>, requests': map<nat, seq<Request>>, flight': map<nat, set<nat>>,
                                     cores: nat, ids: nat, initialized: bool)
    requires PoolsOk(tranId, requests, flight, cores, ids, initialized)
    requires tranId' == tranId || tranId' == tranId[core := FreeOf(tranId', core)]
    requires requests' == requests || requests' == requests[core := QueueOf(requests', core)]
    requires flight' == flight || flight' == flight[core := FlightOf(flight', core)]
    requires Whole(FreeOf(tranId', core), QueueOf(requests', core), FlightOf(flight', core), Owned(core, cores, ids, initialized))
    ensures PoolsOk(tranId', requests', flight', cores, ids, initialized)
  {
    forall c: nat ensures CoreOk(c, tranId', requests', flight', Owned(c, cores, ids, initialized)) {
      if c != core {
        assert CoreOk(c, tranId, requests, flight, Owned(c, cores, ids, initialized));
      }
    }
  }

  lemma {:induction false} IssuePools(core: nat, tranId: map<nat, seq<nat>>, requests: map<nat, seq<Request>>, flight: map<nat, set<nat>>, r: Request,
                                      cores: nat, ids: nat, initialized: bool)
    requires PoolsOk(tranId, requests, flight, cores, ids, initialized) && FreeOf(tranId, core) != [] && r.id == FreeOf(tranId, core)[0]
    ensures r.id !in Ids(QueueOf(requests, core)) && r.id !in FlightOf(flight, core)
    ensures PoolsOk(tranId[core := FreeOf(tranId, core)[1..]], requests[core := QueueOf(requests, core) + [r]], flight, cores, ids, initialized)
  {
    assert CoreOk(core, tranId, requests, flight, Owned(core, cores, ids, initialized));
    TakeId(Owned(core, cores, ids, initialized), FreeOf(tranId, core), QueueOf(requests, core), FlightOf(flight, core), r);
    SomeParts(core, tranId, requests, flight, tranId[core := FreeOf(tranId, core)[1..]], requests[core := QueueOf(requests, core) + [r]], flight, cores, ids, initialized);
  }

  lemma {:induction false} AcceptPools(core: nat, tranId: map<nat, seq<nat>>, requests: map<nat, seq<Request>>, flight: map<nat, set<nat>>,
                                       cores: nat, ids: nat, initialized: bool)
    requires PoolsOk(tranId, requests, flight, cores, ids, initialized) && QueueOf(requests, core) != []
    ensures PoolsOk(tranId, requests[core := QueueOf(requests, core)[1..]], flight[core := FlightOf(flight, core) + {QueueOf(requests, core)[0].id}], cores, ids, initialized)
  {
    var queue := QueueOf(requests, core);
    assert CoreOk(core, tranId, requests, flight, Owned(core, cores, ids, initialized));
    AcceptId(Owned(core, cores, ids, initialized), FreeOf(tranId, core), queue, FlightOf(flight, core));
    SomeParts(core, tranId, requests, flight, tranId, requests[core := queue[1..]], flight[core := FlightOf(flight, core) + {queue[0].id}], cores, ids, initialized);
  }

  lemma {:induction false} AnswerPools(core: nat, tranId: map<nat, seq<nat>>, requests: map<nat, seq<Request>>, flight: map<nat, set<nat>>, id: nat,
                                       cores: nat, ids: nat, initialized: bool)
    requires PoolsOk(tranId, requests, flight, cores, ids, initialized) && id in FlightOf(flight, core)
    ensures id !in Ids(QueueOf(requests, core))
    ensures PoolsOk(tranId[core := FreeOf(tranId, core) + [id]], requests, flight[core := FlightOf(flight, core) - {id}], cores, ids, initialized)
  {
    assert CoreOk(core, tranId, requests, flight, Owned(core, cores, ids, initialized));
    ReturnId(Owned(core, cores, ids, initialized), FreeOf(tranId, core), QueueOf(requests, core), FlightOf(flight, core), id);
    SomeParts(core, tranId, requests, flight, tranId[core := FreeOf(tranId, core) + [id]], requests, flight[core := FlightOf(flight, core) - {id}], cores, ids, initialized);
  }

  lemma {:induction false} IssueBirths(core: nat, requests: map<nat, seq<Request>>, flight: map<nat, set<nat>>, birth: map<Txn, nat>, starting: map<Txn, nat>,
                                       r: Request, now: nat)
    requires BirthsOk(requests, flight, birth, starting)
    requires r.id !in Ids(QueueOf(requests, core)) && r.id !in FlightOf(flight, core)
    ensures Txn(core, r.id) !in birth
    ensures BirthsOk(requests[core := QueueOf(requests, core) + [r]], flight, birth[Txn(core, r.id) := now], starting[Txn(core, r.id) := now % Wrap])
  {
    var x0 := Txn(core, r.id);
    var queue := QueueOf(requests, core);
    var requests', birth', starting' := requests[core := queue + [r]], birth[x0 := now], starting[x0 := now % Wrap];
    IdsAppend(queue, r);
    assert BornOk(x0, requests, flight, birth, starting);
    forall x ensures BornOk(x, requests', flight, birth', starting') {
      assert BornOk(x, requests, flight, birth, starting);
      assert Outstanding(x, requests', flight) <==> Outstanding(x, requests, flight) || x == x0 by {
        if x.core == core {
          assert QueueOf(requests', core) == queue + [r];
        } else {
          assert QueueOf(requests', x.core) == QueueOf(requests, x.core);
        }
      }
    }
  }

  lemma {:induction false} AcceptBirths(core: nat, requests: map<nat, seq<Request>>, flight: map<nat, set<nat>>, birth: map<Txn, nat>, starting: map<Txn, nat>)
    requires BirthsOk(requests, flight, birth, starting) && QueueOf(requests, core) != []
    ensures BirthsOk(requests[core := QueueOf(requests, core)[1..]], flight[core := FlightOf(flight, core) + {QueueOf(requests, core)[0].id}], birth, starting)
  {
    var queue := QueueOf(requests, core);
    var requests', flight' := requests[core := queue[1..]], flight[core := FlightOf(flight, core) + {queue[0].id}];
    IdsTail(queue);
    forall x ensures BornOk(x, requests', flight', birth, starting) {
      assert BornOk(x, requests, flight, birth, starting);
      assert Outstanding(x, requests', flight') <==> Outstanding(x, requests, flight) by {
        if x.core == core {
          assert QueueOf(requests', core) == queue[1..] && FlightOf(flight', core) == FlightOf(flight, core) + {queue[0].id};
        } else {
          assert QueueOf(requests', x.core) == QueueOf(requests, x.core) && FlightOf(flight', x.core) == FlightOf(flight, x.core);
        }
      }
    }
  }

  lemma {:induction false} AnswerBirths(core: nat, requests: map<nat, seq<Request>>, flight: map<nat, set<nat>>, birth: map<Txn, nat>, starting: map<Txn, nat>, id: nat)
    requires BirthsOk(requests, flight, birth, starting) && id in FlightOf(flight, core) && id !in Ids(QueueOf(requests, core))
    ensures BirthsOk(requests, flight[core := FlightOf(flight, core) - {id}], birth - {Txn(core, id)}, starting)
  {
    var x0 := Txn(core, id);
    var flight', birth' := flight[core := FlightOf(flight, core) - {id}], birth - {x0};
    forall x ensures BornOk(x, requests, flight', birth', starting) {
      assert BornOk(x, requests, flight, birth, starting);
      assert Outstanding(x, requests, flight') <==> Outstanding(x, requests, flight) && x != x0 by {
        if x.core == core {
          assert FlightOf(flight', core) == FlightOf(flight, core) - {id};
        } else {
          assert FlightOf(flight', x.core) == FlightOf(flight, x.core);
        }
      }
    }
  }

  /** The wrapped difference the source takes is the time since this transaction's own creation. */
  lemma {:induction false} AnswerLatency(core: nat, requests: map<nat, seq<Request>>, flight: map<nat, set<nat>>, birth: map<Txn, nat>, starting: map<Txn, nat>, id: nat, now: nat)
    requires BirthsOk(requests, flight, birth, starting) && id in FlightOf(flight, core)
    ensures Txn(core, id) in birth && Txn(core, id) in starting
    ensures Sub32(now % Wrap, starting[Txn(core, id)]) == Elapsed(now, birth[Txn(core, id)])
  {
    assert BornOk(Txn(core, id), requests, flight, birth, starting);
    Sub32OfTimes(now, birth[Txn(core, id)]);
  }

  class Generator {
    const cores: nat
    /** Ids per core. */
    const ids: nat
    var initialized: bool
    var tranId: map<nat, seq<nat>>
    var requests: map<nat, seq<Request>>
    var starting: map<Txn, nat>
    var histogram: map<nat, nat>
    /** Accepted and unanswered ids of each core. */
    ghost var flight: map<nat, set<nat>>
    /** When each outstanding transaction was created, not wrapped. */
    ghost var birth: map<Txn, nat>
    ghost var responses: nat

    ghost predicate IdsValid()
      reads this
    {
      PoolsOk(tranId, requests, flight, cores, ids, initialized) && BirthsOk(requests, flight, birth, starting)
    }

    ghost predicate Valid()
      reads this
    {
      IdsValid() && Total(histogram) == responses
    }

    constructor (cores: nat, ids: nat)
      ensures Valid() && this.cores == cores && this.ids == ids && !initialized && responses == 0
    {
      this.cores, this.ids := cores, ids;
      initialized, tranId, requests, starting, histogram := false, map[], map[], map[], map[];
      flight, birth, responses := map[], map[], 0;
      new;
      NothingYet(cores, ids);
    }

    /** The nested loops that fill the id queues. */
    method Initialize()
      requires Valid() && !initialized
      modifies this`tranId, this`initialized
      ensures Valid() && initialized
      ensures forall c: nat {:trigger FreeOf(tranId, c)} :: FreeOf(tranId, c) == if c < cores then IdsBelow(ids) else []
    {
      AllEmpty(tranId, requests, flight, cores, ids);
      for c := 0 to cores
        invariant forall d: nat {:trigger FreeOf(tranId, d)} :: FreeOf(tranId, d) == if d < c then IdsBelow(ids) else []
      {
        ghost var before := tranId;
        for id := 0 to ids
          invariant FreeOf(tranId, c) == IdsBelow(id)
          invariant forall d: nat {:trigger FreeOf(tranId, d)} :: d != c ==> FreeOf(tranId, d) == FreeOf(before, d)
        {
          ghost var prior := tranId;
          tranId := tranId[c := FreeOf(tranId, c) + [id]];
          assert forall d: nat {:trigger FreeOf(tranId, d)} :: d != c ==> FreeOf(tranId, d) == FreeOf(prior, d);
        }
      }
      initialized := true;
      AllFree(tranId, requests, flight, cores, ids);
    }

    /** A request is created: its id moves from the free queue to the request queue, and its life begins. */
    method Issue(core: nat, ghost now: nat, cycle: nat, addr: Addr)
      requires Valid() && FreeOf(tranId, core) != [] && cycle == now % Wrap
      modifies this`tranId, this`requests, this`starting, this`birth
      ensures Valid()
      ensures tranId == old(tranId)[core := old(FreeOf(tranId, core))[1..]]
      ensures requests == old(requests)[core := old(QueueOf(requests, core)) + [Request(addr, old(FreeOf(tranId, core))[0])]]
      ensures birth == old(birth)[Txn(core, old(FreeOf(tranId, core))[0]) := now] && Txn(core, old(FreeOf(tranId, core))[0]) !in old(birth)
    {
      var free, queue := FreeOf(tranId, core), QueueOf(requests, core);
      var r := Request(addr, free[0]);
      IssuePools(core, tranId, requests, flight, r, cores, ids, initialized);
      IssueBirths(core, requests, flight, birth, starting, r, now);
      tranId := tranId[core := free[1..]];
      starting := starting[Txn(core, r.id) := cycle];
      requests := requests[core := queue + [r]];
      birth := birth[Txn(core, r.id) := now];
    }

    /** The front request is accepted. */
    method Accept(core: nat)
      requires Valid() && QueueOf(requests, core) != []
      modifies this`requests, this`flight
      ensures Valid()
      ensures requests == old(requests)[core := old(QueueOf(requests, core))[1..]]
      ensures flight == old(flight)[core := old(FlightOf(flight, core)) + {old(QueueOf(requests, core))[0].id}]
    {
      var queue := QueueOf(requests, core);
      AcceptPools(core, tranId, requests, flight, cores, ids, initialized);
      AcceptBirths(core, requests, flight, birth, starting);
      requests := requests[core := queue[1..]];
      flight := flight[core := FlightOf(flight, core) + {queue[0].id}];
    }

    /** One more response with this latency. */
    method CountLatency(latency: nat)
      modifies this`histogram, this`responses
      ensures responses == old(responses) + 1
      ensures histogram == old(histogram)[latency := CountOf(old(histogram), latency) + 1]
      ensures Total(histogram) == old(Total(histogram)) + 1
    {
      TotalBump(histogram, latency);
      if latency in histogram {
        histogram := histogram[latency := histogram[latency] + 1];
      } else {
        histogram := histogram[latency := 1];
      }
      responses := responses + 1;
    }

    /** An answered id becomes free again. */
    method Release(core: nat, id: nat)
      requires IdsValid() && id in FlightOf(flight, core)
      modifies this`tranId, this`flight, this`birth
      ensures IdsValid()
      ensures tranId == old(tranId)[core := old(FreeOf(tranId, core)) + [id]]
      ensures flight == old(flight)[core := old(FlightOf(flight, core)) - {id}]
      ensures birth == old(birth) - {Txn(core, id)}
    {
      AnswerPools(core, tranId, requests, flight, id, cores, ids, initialized);
      AnswerBirths(core, requests, flight, birth, starting, id);
      tranId := tranId[core := FreeOf(tranId, core) + [id]];
      flight := flight[core := FlightOf(flight, core) - {id}];
      birth := birth - {Txn(core, id)};
    }

    /** A response: its id becomes free again, and the time since its creation is counted. */
    method Answer(core: nat, ghost now: nat, cycle: nat, id: nat)
      requires Valid() && id in FlightOf(flight, core) && cycle == now % Wrap
      modifies this`tranId, this`histogram, this`flight, this`birth, this`responses
      ensures Valid() && responses == old(responses) + 1
      ensures tranId == old(tranId)[core := old(FreeOf(tranId, core)) + [id]]
      ensures flight == old(flight)[core := old(FlightOf(flight, core)) - {id}]
      ensures Txn(core, id) in old(birth) && birth == old(birth) - {Txn(core, id)}
      ensures var latency := Elapsed(now, old(birth)[Txn(core, id)]);
              histogram == old(histogram)[latency := CountOf(old(histogram), latency) + 1]
    {
      AnswerLatency(core, requests, flight, birth, starting, id, now);
      Release(core, id);
      CountLatency(Sub32(cycle, starting[Txn(core, id)]));
    }

    /** The free ids of a core as create_request sees them: initialized on the first call. */
    ghost function Available(core: nat): seq<nat>
      reads this
    {
      if initialized then FreeOf(tranId, core) else if core < cores then IdsBelow(ids) else []
    }

    /** create_request. The random choices are parameters: whether to make a request, its address and
        whether it is local. A request is made iff it is wanted and an id is free. */
    method CreateRequest(core: nat, ghost now: nat, cycle: nat, wanted: bool, random: Addr, local: bool,
                         base: Addr, mask: Addr, tile: Addr, seqMask: Addr)
      returns (valid: bool, id: nat, addr: Addr)
      requires Valid() && cycle == now % Wrap
      modifies this
      ensures Valid() && initialized
      ensures flight == old(flight) && histogram == old(histogram) && responses == old(responses)
      ensures wanted && old(Available(core)) != [] ==>
                var x := old(Available(core))[0];
                && FreeOf(tranId, core) == old(Available(core))[1..]
                && requests == old(requests)[core := old(QueueOf(requests, core)) + [Request(Address(random, base, mask, tile, seqMask, local), x)]]
                && birth == old(birth)[Txn(core, x) := now] && Txn(core, x) !in old(birth)
      ensures forall c: nat {:trigger FreeOf(tranId, c)} :: c != core ==> FreeOf(tranId, c) == old(Available(c))
      ensures !(wanted && old(Available(core)) != []) ==>
                FreeOf(tranId, core) == old(Available(core)) && requests == old(requests) && birth == old(birth)
      ensures var queue := QueueOf(requests, core);
              if queue != [] then valid && id == queue[0].id && addr == queue[0].addr else !valid && id == 0 && addr == 0
    {
      if !initialized {
        Initialize();
      }
      ghost var free := tranId;
      assert forall c: nat {:trigger FreeOf(free, c)} :: FreeOf(free, c) == old(Available(c));
      if FreeOf(tranId, core) != [] && wanted {
        Issue(core, now, cycle, Address(random, base, mask, tile, seqMask, local));
      }
      var queue := QueueOf(requests, core);
      if queue != [] {
        valid, id, addr := true, queue[0].id, queue[0].addr;
      } else {
        valid, id, addr := false, 0, 0;
      }
      forall c: nat | c != core ensures FreeOf(tranId, c) == old(Available(c)) {
        assert FreeOf(tranId, c) == FreeOf(free, c);
      }
    }

    /** probe_response, on responses that name an accepted and unanswered id; the request accepted in the
        same call counts. */
    method ProbeResponse(core: nat, ghost now: nat, cycle: nat, ready: bool, respValid: bool, respId: nat)
      requires Valid() && cycle == now % Wrap
      requires respValid ==>
                 || respId in FlightOf(flight, core)
                 || (ready && QueueOf(requests, core) != [] && respId == QueueOf(requests, core)[0].id)
      modifies this
      ensures Valid() && initialized == old(initialized)
      ensures requests == if ready && old(QueueOf(requests, core)) != [] then old(requests)[core := old(QueueOf(requests, core))[1..]] else old(requests)
      ensures FlightOf(flight, core) == old(FlightOf(flight, core))
                + (if ready && old(QueueOf(requests, core)) != [] then {old(QueueOf(requests, core))[0].id} else {})
                - (if respValid then {respId} else {})
      ensures forall c: nat {:trigger FlightOf(flight, c)} :: c != core ==> FlightOf(flight, c) == old(FlightOf(flight, c))
      ensures respValid ==>
                && Txn(core, respId) in old(birth) && birth == old(birth) - {Txn(core, respId)}
                && tranId == old(tranId)[core := old(FreeOf(tranId, core)) + [respId]] && responses == old(responses) + 1
                && var latency := Elapsed(now, old(birth)[Txn(core, respId)]);
                   histogram == old(histogram)[latency := CountOf(old(histogram), latency) + 1]
      ensures !respValid ==>
                birth == old(birth) && tranId == old(tranId) && histogram == old(histogram) && responses == old(responses)
    {
      if ready && QueueOf(requests, core) != [] {
        Accept(core);
      }
      if respValid {
        Answer(core, now, cycle, respId);
      }
    }
  }
}
