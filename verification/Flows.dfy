/** Transaction correlation: class `Flows` of hardware/scripts/perfetto_gen.py. */
module Flows {
  import opened Options

  /** A cycle, or the infinite end of a transaction still in flight. */
  datatype Time = At(cycle: nat) | Inf

  predicate Leq(a: Time, b: Time) {
    b.Inf? || (a.At? && a.cycle <= b.cycle)
  }

  // ---------------------------------------------------------------------------------------------
  // Sorting
  // ---------------------------------------------------------------------------------------------

  ghost predicate Sorted(s: seq<nat>) {
    forall i, j :: 0 <= i < j < |s| ==> s[i] <= s[j]
  }

  ghost predicate SortedTimes(s: seq<Time>) {
    forall i, j :: 0 <= i < j < |s| ==> Leq(s[i], s[j])
  }

  function InsertSorted(s: seq<nat>, x: nat): (r: seq<nat>)
    ensures |r| == |s| + 1
  {
    if s == [] || x <= s[0] then [x] + s else [s[0]] + InsertSorted(s[1..], x)
  }

  function Sort(s: seq<nat>): (r: seq<nat>)
    ensures |r| == |s|
  {
    if s == [] then [] else InsertSorted(Sort(s[1..]), s[0])
  }

  lemma {:induction false} InsertElements(s: seq<nat>, x: nat)
    ensures multiset(InsertSorted(s, x)) == multiset(s) + multiset{x}
    decreases |s|
  {
    if s != [] && x > s[0] {
      InsertElements(s[1..], x);
      assert s == [s[0]] + s[1..];
    }
  }

  lemma {:induction false} InsertFacts(s: seq<nat>, x: nat)
    requires Sorted(s)
    ensures Sorted(InsertSorted(s, x)) && multiset(InsertSorted(s, x)) == multiset(s) + multiset{x}
    decreases |s|
  {
    InsertElements(s, x);
    if s != [] && x > s[0] {
      InsertFacts(s[1..], x);
      SortedCons(s[0], InsertSorted(s[1..], x), s[1..], x);
    }
  }

  lemma {:induction false} SortedCons(h: nat, r: seq<nat>, s: seq<nat>, x: nat)
    requires Sorted(r) && multiset(r) == multiset(s) + multiset{x} && h <= x && forall i :: 0 <= i < |s| ==> h <= s[i]
    ensures Sorted([h] + r)
  {
    forall i | 0 <= i < |r| ensures h <= r[i] {
      assert r[i] in multiset(r);
      assert r[i] == x || r[i] in multiset(s);
      assert r[i] == x || r[i] in s;
    }
  }

  lemma {:induction false} SortFacts(s: seq<nat>)
    ensures Sorted(Sort(s)) && multiset(Sort(s)) == multiset(s)
    decreases |s|
  {
    if s != [] {
      SortFacts(s[1..]);
      InsertFacts(Sort(s[1..]), s[0]);
      assert s == [s[0]] + s[1..];
    }
  }

  lemma {:induction false} LeastFirst(a: seq<nat>, b: seq<nat>)
    requires Sorted(b) && multiset(a) == multiset(b) && a != [] && b != []
    ensures b[0] <= a[0]
  {
    assert a[0] in multiset(b);
    assert a[0] in b;
  }

  lemma {:induction false} TailElements(a: seq<nat>)
    requires a != []
    ensures multiset(a[1..]) == multiset(a) - multiset{a[0]}
  {
    assert a == [a[0]] + a[1..];
  }

  /** A sorted list is determined by its elements. */
  lemma {:induction false} SortedUnique(a: seq<nat>, b: seq<nat>)
    requires Sorted(a) && Sorted(b) && multiset(a) == multiset(b)
    ensures a == b
    decreases |a|
  {
    assert |multiset(a)| == |a| && |multiset(b)| == |b|;
    if a != [] {
      LeastFirst(a, b);
      LeastFirst(b, a);
      TailElements(a);
      TailElements(b);
      SortedUnique(a[1..], b[1..]);
      assert a == [a[0]] + a[1..] && b == [b[0]] + b[1..];
    }
  }

  // ---------------------------------------------------------------------------------------------
  // Bisection
  // ---------------------------------------------------------------------------------------------

  /** bisect_right: the number of leading entries that are at most x. */
  method BisectRight(a: seq<nat>, x: nat) returns (lo: nat)
    requires Sorted(a)
    ensures lo <= |a|
    ensures forall i :: 0 <= i < lo ==> a[i] <= x
    ensures forall i :: lo <= i < |a| ==> a[i] > x
  {
    lo := 0;
    var hi := |a|;
    while lo < hi
      invariant lo <= hi <= |a|
      invariant forall i :: 0 <= i < lo ==> a[i] <= x
      invariant forall i :: hi <= i < |a| ==> a[i] > x
    {
      var mid := (lo + hi) / 2;
      if x < a[mid] {
        hi := mid;
      } else {
        lo := mid + 1;
      }
    }
  }

  /** bisect_left: the number of leading entries below x. */
  method BisectLeft(a: seq<Time>, x: nat) returns (lo: nat)
    requires SortedTimes(a)
    ensures lo <= |a|
    ensures forall i :: 0 <= i < lo ==> !Leq(At(x), a[i])
    ensures forall i :: lo <= i < |a| ==> Leq(At(x), a[i])
  {
    lo := 0;
    var hi := |a|;
    while lo < hi
      invariant lo <= hi <= |a|
      invariant forall i :: 0 <= i < lo ==> !Leq(At(x), a[i])
      invariant forall i :: hi <= i < |a| ==> Leq(At(x), a[i])
    {
      var mid := (lo + hi) / 2;
      if !Leq(At(x), a[mid]) {
        lo := mid + 1;
      } else {
        hi := mid;
      }
    }
  }

  // ---------------------------------------------------------------------------------------------
  // Buckets
  // ---------------------------------------------------------------------------------------------

  /** k-th request paired with k-th response, if there is one. */
  function Pairing(n: nat, resp: seq<nat>): (scs: seq<Time>)
    ensures |scs| == n
    ensures forall k {:trigger scs[k]} :: 0 <= k < n ==> scs[k] == if k < |resp| then At(resp[k]) else Inf
  {
    seq(n, k requires 0 <= k => if k < |resp| then At(resp[k]) else Inf)
  }

  /** Some request was issued before the previous response returned. */
  predicate Overlaps(rcs: seq<nat>, scs: seq<Time>)
    requires |rcs| == |scs|
  {
    exists k :: 0 <= k < |rcs| - 1 && !Leq(scs[k], At(rcs[k + 1]))
  }

  lemma {:induction false} PairingSorted(n: nat, resp: seq<nat>)
    requires Sorted(resp)
    ensures SortedTimes(Pairing(n, resp))
  {
  }

  /** One correlated transaction. */
  datatype Interval = Interval(req: nat, resp: Time, fid: nat)

  datatype Entry = Entry(rcs: seq<nat>, scs: seq<Time>, ivs: seq<Interval>)

  predicate Contains(iv: Interval, cyc: nat) {
    iv.req <= cyc && Leq(At(cyc), iv.resp)
  }

  ghost predicate EntryOk(e: Entry) {
    && |e.rcs| == |e.scs| == |e.ivs| && Sorted(e.rcs) && SortedTimes(e.scs)
    && (forall k {:trigger e.ivs[k]} :: 0 <= k < |e.ivs| ==> e.ivs[k].req == e.rcs[k] && e.ivs[k].resp == e.scs[k])
  }

  /** The linear scan that `fid` stands for: the latest interval with the cycle for a request, the
      earliest for a response. */
  ghost predicate Scan(ivs: seq<Interval>, cyc: nat, isResp: bool, r: Option<nat>) {
    match r
    case None => forall k {:trigger ivs[k]} :: 0 <= k < |ivs| ==> !Contains(ivs[k], cyc)
    case Some(fid) =>
      exists k :: 0 <= k < |ivs| && Contains(ivs[k], cyc) && ivs[k].fid == fid
        && forall j {:trigger ivs[j]} :: 0 <= j < |ivs| && Contains(ivs[j], cyc) ==> if isResp then k <= j else j <= k
  }

  /** Intervals of a bucket without overlap share at most a boundary cycle. */
  lemma {:induction false} SharedBoundary(e: Entry, j: nat, k: nat, cyc: nat)
    requires EntryOk(e) && !Overlaps(e.rcs, e.scs) && j < k < |e.ivs|
    requires Contains(e.ivs[j], cyc) && Contains(e.ivs[k], cyc)
    ensures e.ivs[j].resp == At(cyc) && e.ivs[k].req == cyc
  {
    assert Leq(e.scs[j], At(e.rcs[j + 1]));
    assert j + 1 < k ==> e.rcs[j + 1] <= e.rcs[k];
  }

  /** What the bisected lookup of one bucket returns. */
  method Lookup(e: Entry, cyc: nat, isResp: bool) returns (r: Option<nat>)
    requires EntryOk(e)
    ensures Scan(e.ivs, cyc, isResp, r)
  {
    var i: int;
    if isResp {
      i := BisectLeft(e.scs, cyc);
    } else {
      i := BisectRight(e.rcs, cyc);
      i := i - 1;
    }
    LookupScan(e, cyc, isResp, i);
    if 0 <= i < |e.ivs| {
      var iv := e.ivs[i];
      if iv.req <= cyc && Leq(At(cyc), iv.resp) {
        return Some(iv.fid);
      }
    }
    return None;
  }

  /** The bisected index is the only candidate: if any interval contains the cycle, it does. */
  lemma {:induction false} LookupScan(e: Entry, cyc: nat, isResp: bool, i: int)
    requires EntryOk(e) && -1 <= i <= |e.ivs|
    requires isResp ==> i >= 0 && (forall k :: 0 <= k < i ==> !Leq(At(cyc), e.scs[k]))
                        && (forall k :: i <= k < |e.scs| ==> Leq(At(cyc), e.scs[k]))
    requires !isResp ==> i < |e.ivs| && (forall k :: 0 <= k <= i ==> e.rcs[k] <= cyc)
                         && (forall k :: i < k < |e.rcs| ==> e.rcs[k] > cyc)
    ensures forall j {:trigger e.ivs[j]} :: 0 <= j < |e.ivs| && Contains(e.ivs[j], cyc) ==>
              0 <= i < |e.ivs| && Contains(e.ivs[i], cyc) && (if isResp then i <= j else j <= i)
  {
    forall j {:trigger e.ivs[j]} | 0 <= j < |e.ivs| && Contains(e.ivs[j], cyc)
      ensures 0 <= i < |e.ivs| && Contains(e.ivs[i], cyc) && (if isResp then i <= j else j <= i)
    {
      assert e.ivs[j].req == e.rcs[j] && e.ivs[j].resp == e.scs[j];
      if isResp {
        assert i <= j;
        assert i < j ==> e.rcs[i] <= e.rcs[j];
      } else {
        assert j <= i;
        assert j < i ==> Leq(e.scs[j], e.scs[i]);
      }
      assert e.ivs[i].req == e.rcs[i] && e.ivs[i].resp == e.scs[i];
    }
  }

  // ---------------------------------------------------------------------------------------------
  // The transactions behind a bucket
  // ---------------------------------------------------------------------------------------------

  /** The transactions of one requester and id, in issue order: the id is not reissued before its
      response returns, and only the last can still be in flight. */
  ghost predicate TrueRun(reqs: seq<nat>, resps: seq<nat>) {
    && |reqs| - 1 <= |resps| <= |reqs|
    && (forall k {:trigger resps[k]} :: 0 <= k < |resps| ==> reqs[k] <= resps[k])
    && (forall k {:trigger resps[k]} :: 0 <= k < |reqs| - 1 ==> resps[k] <= reqs[k + 1])
  }

  lemma {:induction false} RunSorted(reqs: seq<nat>, resps: seq<nat>, i: nat, j: nat)
    requires TrueRun(reqs, resps) && i < j < |reqs|
    ensures reqs[i] <= resps[i] <= reqs[j]
    decreases j
  {
    assert reqs[i] <= resps[i];
    if i < j - 1 {
      RunSorted(reqs, resps, i, j - 1);
      assert reqs[j - 1] <= resps[j - 1] <= reqs[j];
    } else {
      assert resps[i] <= reqs[i + 1];
    }
  }

  /** Whatever order the trace lists them in, sorting recovers requests and responses in issue order,
      pairs each request with its own response, and sees no stream. */
  lemma {:induction false} RecoversTransactions(reqs: seq<nat>, resps: seq<nat>, seenReqs: seq<nat>, seenResps: seq<nat>)
    requires TrueRun(reqs, resps)
    requires multiset(seenReqs) == multiset(reqs) && multiset(seenResps) == multiset(resps)
    ensures Sort(seenReqs) == reqs && Sort(seenResps) == resps
    ensures !Overlaps(reqs, Pairing(|reqs|, resps))
  {
    SortFacts(seenReqs);
    SortFacts(seenResps);
    forall i, j | 0 <= i < j < |reqs| ensures reqs[i] <= reqs[j] {
      RunSorted(reqs, resps, i, j);
    }
    forall i, j | 0 <= i < j < |resps| ensures resps[i] <= resps[j] {
      RunSorted(reqs, resps, i, j);
      assert reqs[j] <= resps[j];
    }
    SortedUnique(Sort(seenReqs), reqs);
    SortedUnique(Sort(seenResps), resps);
    forall k | 0 <= k < |reqs| - 1 ensures Leq(Pairing(|reqs|, resps)[k], At(reqs[k + 1])) {
      assert resps[k] <= reqs[k + 1];
    }
  }

  /** A request hop before the response, or a response hop after the request, resolves to its own
      transaction. */
  lemma {:induction false} HopBindsToOwn(e: Entry, k: nat, cyc: nat, isResp: bool, r: Option<nat>)
    requires EntryOk(e) && !Overlaps(e.rcs, e.scs) && k < |e.ivs| && Contains(e.ivs[k], cyc)
    requires if isResp then e.ivs[k].req < cyc else e.ivs[k].resp != At(cyc)
    requires Scan(e.ivs, cyc, isResp, r)
    ensures r == Some(e.ivs[k].fid)
  {
    forall j: nat | j < |e.ivs| && Contains(e.ivs[j], cyc) && j != k
      ensures if isResp then k < j else j < k
    {
      if j < k {
        SharedBoundary(e, j, k, cyc);
      } else {
        SharedBoundary(e, k, j, cyc);
      }
    }
  }

  // ---------------------------------------------------------------------------------------------
  // The class
  // ---------------------------------------------------------------------------------------------

  /** A requester (group, tile, port) and a meta id. */
  datatype Key = Key(group: nat, tile: nat, idx: nat, meta: nat)

  /** Requests and responses of one key, as the trace lists them. */
  datatype Bucket = Bucket(key: Key, reqs: seq<nat>, resps: seq<nat>)

  function Rcs(b: Bucket): seq<nat> { Sort(b.reqs) }

  function Scs(b: Bucket): (scs: seq<Time>)
    ensures |scs| == |b.reqs|
  {
    Pairing(|b.reqs|, Sort(b.resps))
  }

  predicate IsStream(b: Bucket) {
    Overlaps(Rcs(b), Scs(b))
  }

  /** The intervals of a bucket, with flow ids from `first` on. */
  ghost predicate Numbered(e: Entry, first: nat) {
    forall k {:trigger e.ivs[k]} :: 0 <= k < |e.ivs| ==> e.ivs[k].fid == first + k
  }

  // ---------------------------------------------------------------------------------------------
  // The index
  // ---------------------------------------------------------------------------------------------

  type Index = map<Key, Entry>

  function FidAt(ix: Index, k: Key, i: nat): nat
    requires k in ix && i < |ix[k].ivs|
  {
    ix[k].ivs[i].fid
  }

  ghost predicate KeyOk(ix: Index, streams: set<Key>, k: Key)
    requires k in ix
  {
    EntryOk(ix[k]) && !Overlaps(ix[k].rcs, ix[k].scs) && k !in streams
  }

  ghost predicate KeysOk(ix: Index, streams: set<Key>) {
    forall k {:trigger KeyOk(ix, streams, k)} :: k in ix ==> KeyOk(ix, streams, k)
  }

  /** Flow ids are positive and below `next`. */
  ghost predicate FidsBelow(ix: Index, next: nat) {
    forall k, i: nat {:trigger FidAt(ix, k, i)} :: k in ix && i < |ix[k].ivs| ==> 1 <= FidAt(ix, k, i) < next
  }

  /** No two transactions share a flow id. */
  ghost predicate FidsUnique(ix: Index) {
    forall k, i: nat, l, j: nat {:trigger FidAt(ix, k, i), FidAt(ix, l, j)} ::
      k in ix && l in ix && i < |ix[k].ivs| && j < |ix[l].ivs| && FidAt(ix, k, i) == FidAt(ix, l, j)
      ==> k == l && i == j
  }

  lemma {:induction false} AddKeepsKeys(ix: Index, streams: set<Key>, k: Key, e: Entry)
    requires KeysOk(ix, streams) && k !in ix && k !in streams && EntryOk(e) && !Overlaps(e.rcs, e.scs)
    ensures KeysOk(ix[k := e], streams)
  {
    var after := ix[k := e];
    forall l | l in after ensures KeyOk(after, streams, l) {
      if l != k {
        assert KeyOk(ix, streams, l);
      }
    }
  }

  lemma {:induction false} StreamKeepsKeys(ix: Index, streams: set<Key>, k: Key)
    requires KeysOk(ix, streams) && k !in ix
    ensures KeysOk(ix, streams + {k})
  {
    forall l | l in ix ensures KeyOk(ix, streams + {k}, l) {
      assert KeyOk(ix, streams, l);
    }
  }

  lemma {:induction false} AddKeepsFids(ix: Index, next: nat, k: Key, e: Entry)
    requires FidsBelow(ix, next) && FidsUnique(ix) && k !in ix && Numbered(e, next) && next >= 1
    ensures FidsBelow(ix[k := e], next + |e.ivs|) && FidsUnique(ix[k := e])
  {
    var after := ix[k := e];
    forall l, i: nat | l in after && i < |after[l].ivs|
      ensures 1 <= FidAt(after, l, i) < next + |e.ivs|
    {
      FidAfter(ix, next, k, e, l, i);
    }
    forall l, i: nat, m, j: nat | l in after && m in after && i < |after[l].ivs| && j < |after[m].ivs| && FidAt(after, l, i) == FidAt(after, m, j)
      ensures l == m && i == j
    {
      FidAfter(ix, next, k, e, l, i);
      FidAfter(ix, next, k, e, m, j);
      if l != k && m != k {
        assert FidAt(ix, l, i) == FidAt(ix, m, j);
      }
    }
  }

  lemma {:induction false} FidAfter(ix: Index, next: nat, k: Key, e: Entry, l: Key, i: nat)
    requires FidsBelow(ix, next) && k !in ix && Numbered(e, next)
    requires l in ix[k := e] && i < |ix[k := e][l].ivs|
    ensures l == k ==> FidAt(ix[k := e], l, i) == next + i
    ensures l != k ==> l in ix && FidAt(ix[k := e], l, i) == FidAt(ix, l, i) && 1 <= FidAt(ix, l, i) < next
  {
    if l == k {
      assert e.ivs[i].fid == next + i;
    }
  }

  /** A packet that passed a requester port: its cycle and its meta id. */
  datatype Packet = Packet(cyc: nat, meta: nat)

  /** The two packet lists of one requester. */
  datatype Port = Port(group: nat, tile: nat, idx: nat, reqs: seq<Packet>, resps: seq<Packet>)

  /** The cycles of the packets with a given meta id, in trace order. */
  function Cycles(ps: seq<Packet>, meta: nat): seq<nat>
    decreases |ps|
  {
    if ps == [] then [] else
      var p := ps[|ps| - 1];
      Cycles(ps[..|ps| - 1], meta) + (if p.meta == meta then [p.cyc] else [])
  }

  function BucketOf(p: Port, meta: nat): Bucket {
    Bucket(Key(p.group, p.tile, p.idx, meta), Cycles(p.reqs, meta), Cycles(p.resps, meta))
  }

  /** defaultdict(list) filled in trace order: the lists, and the keys in the order they appeared. */
  method GroupByMeta(ps: seq<Packet>) returns (groups: map<nat, seq<nat>>, order: seq<nat>)
    ensures forall m {:trigger Cycles(ps, m)} {:trigger m in groups} ::
              if m in groups then groups[m] == Cycles(ps, m) && Cycles(ps, m) != [] else Cycles(ps, m) == []
    ensures forall m {:trigger m in groups} :: m in groups <==> m in order
    ensures Distinct(order)
  {
    groups, order := map[], [];
    for k := 0 to |ps|
      invariant forall m {:trigger Cycles(ps[..k], m)} {:trigger m in groups} ::
                  if m in groups then groups[m] == Cycles(ps[..k], m) && Cycles(ps[..k], m) != [] else Cycles(ps[..k], m) == []
      invariant forall m {:trigger m in groups} :: m in groups <==> m in order
      invariant Distinct(order)
    {
      var p := ps[k];
      CyclesStep(ps, k);
      if p.meta !in groups {
        DistinctAppend(order, p.meta);
        groups, order := groups[p.meta := []], order + [p.meta];
      }
      groups := groups[p.meta := groups[p.meta] + [p.cyc]];
    }
    assert ps[..|ps|] == ps;
  }

  lemma {:induction false} CyclesStep(ps: seq<Packet>, k: nat)
    requires k < |ps|
    ensures forall m :: Cycles(ps[..k + 1], m) == Cycles(ps[..k], m) + (if ps[k].meta == m then [ps[k].cyc] else [])
  {
    assert ps[..k + 1][..k] == ps[..k];
  }

  ghost predicate Distinct(s: seq<nat>) {
    forall i, j :: 0 <= i < j < |s| ==> s[i] != s[j]
  }

  lemma {:induction false} DistinctAppend(s: seq<nat>, x: nat)
    requires Distinct(s) && x !in s
    ensures Distinct(s + [x])
  {
  }

  /** What the index must say about a bucket: a stream, or all its transactions paired in order. */
  ghost predicate Holds(b: Bucket, ix: Index, streams: set<Key>) {
    && (b.key in streams <==> b.reqs != [] && IsStream(b))
    && (b.key in ix <==> b.reqs != [] && !IsStream(b))
    && (b.key in ix ==> ix[b.key].rcs == Rcs(b) && ix[b.key].scs == Scs(b))
  }

  ghost predicate SameAt(k: Key, ix0: Index, streams0: set<Key>, ix: Index, streams: set<Key>) {
    (k in streams <==> k in streams0) && (k in ix <==> k in ix0) && (k in ix ==> ix[k] == ix0[k])
  }

  ghost predicate OthersKept(p: Port, ix0: Index, streams0: set<Key>, ix: Index, streams: set<Key>) {
    forall k {:trigger From(p, k)} :: !From(p, k) ==> SameAt(k, ix0, streams0, ix, streams)
  }

  predicate Seen(p: Port, m: nat, ix: Index, streams: set<Key>) {
    Key(p.group, p.tile, p.idx, m) in ix || Key(p.group, p.tile, p.idx, m) in streams
  }

  /** The first n meta ids of a requester are done, and no others. */
  ghost predicate Through(p: Port, order: seq<nat>, n: nat, ix: Index, streams: set<Key>)
    requires n <= |order|
  {
    && (forall m {:trigger Seen(p, m, ix, streams)} :: Seen(p, m, ix, streams) <==> m in order[..n])
    && (forall m {:trigger BucketOf(p, m)} :: m in order[..n] ==> Holds(BucketOf(p, m), ix, streams))
  }

  /** The index after one bucket. */
  ghost predicate Added(b: Bucket, ix0: Index, streams0: set<Key>, ix: Index, streams: set<Key>) {
    && (IsStream(b) ==> ix == ix0 && streams == streams0 + {b.key})
    && (!IsStream(b) ==> && streams == streams0 && b.key in ix && ix == ix0[b.key := ix[b.key]]
                         && ix[b.key].rcs == Rcs(b) && ix[b.key].scs == Scs(b))
  }

  lemma {:induction false} OthersKeptOn(p: Port, m: nat, ix0: Index, streams0: set<Key>, ix1: Index, streams1: set<Key>, ix: Index, streams: set<Key>)
    requires OthersKept(p, ix0, streams0, ix1, streams1) && Added(BucketOf(p, m), ix1, streams1, ix, streams)
    ensures OthersKept(p, ix0, streams0, ix, streams)
  {
  }

  lemma {:induction false} ThroughOn(p: Port, order: seq<nat>, n: nat, ix0: Index, streams0: set<Key>, ix: Index, streams: set<Key>)
    requires n < |order| && Distinct(order) && Through(p, order, n, ix0, streams0) && !Seen(p, order[n], ix0, streams0)
    requires Added(BucketOf(p, order[n]), ix0, streams0, ix, streams) && Cycles(p.reqs, order[n]) != []
    ensures Through(p, order, n + 1, ix, streams)
  {
    forall m ensures Seen(p, m, ix, streams) <==> m in order[..n + 1] {
      assert Seen(p, m, ix0, streams0) <==> m in order[..n];
      assert order[..n + 1] == order[..n] + [order[n]];
    }
    forall m | m in order[..n + 1] ensures Holds(BucketOf(p, m), ix, streams) {
      if m != order[n] {
        assert m in order[..n];
        assert Holds(BucketOf(p, m), ix0, streams0);
      }
    }
  }

  lemma {:induction false} ThroughAll(p: Port, order: seq<nat>, ix: Index, streams: set<Key>)
    requires Through(p, order, |order|, ix, streams)
    requires forall m {:trigger Cycles(p.reqs, m)} :: m in order || Cycles(p.reqs, m) == []
    ensures forall m {:trigger BucketOf(p, m)} :: Holds(BucketOf(p, m), ix, streams)
  {
    forall m ensures Holds(BucketOf(p, m), ix, streams) {
      assert order[..|order|] == order;
      assert Seen(p, m, ix, streams) <==> m in order;
      assert m in order || Cycles(p.reqs, m) == [];
    }
  }

  class Correlator {
    var ix: Index
    var streams: set<Key>
    var next: nat
    var nTxn: nat
    var nInflight: nat
    var nOrphanResp: nat
    var nStream: nat
    var bound: nat
    var unbound: nat
    var streamPkts: nat

    /** There are exactly nTxn flow ids, globally unique. */
    ghost predicate Valid()
      reads this
    {
      && nTxn + 1 == next
      && KeysOk(ix, streams) && FidsBelow(ix, next) && FidsUnique(ix)
    }

    /** _build over the requesters of the trace. */
    constructor (ports: seq<Port>)
      requires PortsDistinct(ports)
      ensures Valid()
      ensures forall p, m {:trigger BucketOf(ports[p], m)} :: 0 <= p < |ports| ==> Holds(BucketOf(ports[p], m), ix, streams)
      ensures forall k {:trigger k in ix} {:trigger k in streams} :: k in ix || k in streams ==> exists p :: 0 <= p < |ports| && From(ports[p], k)
      ensures bound == unbound == streamPkts == 0
    {
      ix, streams, next := map[], {}, 1;
      nTxn, nInflight, nOrphanResp, nStream, bound, unbound, streamPkts := 0, 0, 0, 0, 0, 0, 0;
      new;
      for p := 0 to |ports|
        invariant Valid()
        invariant forall q, m {:trigger BucketOf(ports[q], m)} :: 0 <= q < p ==> Holds(BucketOf(ports[q], m), ix, streams)
        invariant forall k {:trigger k in ix} {:trigger k in streams} :: k in ix || k in streams ==> exists q :: 0 <= q < p && From(ports[q], k)
        invariant bound == unbound == streamPkts == 0
      {
        ghost var ix0, streams0 := ix, streams;
        assert forall k {:trigger k in ix} {:trigger k in streams} :: k in ix || k in streams ==> !From(ports[p], k);
        AddPort(ports[p]);
        forall q, m | 0 <= q < p ensures Holds(BucketOf(ports[q], m), ix, streams) {
          assert Holds(BucketOf(ports[q], m), ix0, streams0);
          assert !From(ports[p], BucketOf(ports[q], m).key);
        }
        forall k | k in ix || k in streams ensures exists q :: 0 <= q < p + 1 && From(ports[q], k) {
          if !From(ports[p], k) {
            assert k in ix0 || k in streams0;
          }
        }
      }
    }

    /** One requester. */
    method AddPort(p: Port)
      requires Valid()
      requires forall k {:trigger k in ix} {:trigger k in streams} :: k in ix || k in streams ==> !From(p, k)
      modifies this
      ensures Valid()
      ensures forall m {:trigger BucketOf(p, m)} :: Holds(BucketOf(p, m), ix, streams)
      ensures OthersKept(p, old(ix), old(streams), ix, streams)
      ensures bound == old(bound) && unbound == old(unbound) && streamPkts == old(streamPkts)
    {
      var reqs, order := GroupByMeta(p.reqs);
      var resps, _ := GroupByMeta(p.resps);
      for i := 0 to |order|
        invariant Valid()
        invariant bound == old(bound) && unbound == old(unbound) && streamPkts == old(streamPkts)
        invariant OthersKept(p, old(ix), old(streams), ix, streams)
        invariant Through(p, order, i, ix, streams)
      {
        var m := order[i];
        assert m in order && m in reqs;
        var b := Bucket(Key(p.group, p.tile, p.idx, m), reqs[m], if m in resps then resps[m] else []);
        assert b == BucketOf(p, m);
        ghost var ix0, streams0 := ix, streams;
        assert !Seen(p, m, ix, streams) by {
          assert Seen(p, m, ix, streams) <==> m in order[..i];
        }
        AddBucket(b);
        OthersKeptOn(p, m, old(ix), old(streams), ix0, streams0, ix, streams);
        ThroughOn(p, order, i, ix0, streams0, ix, streams);
      }
      ThroughAll(p, order, ix, streams);
    }

    /** The body of the loop of _build over the meta ids of a requester. */
    method AddBucket(b: Bucket)
      requires Valid() && b.key !in ix && b.key !in streams
      modifies this
      ensures Valid()
      ensures bound == old(bound) && unbound == old(unbound) && streamPkts == old(streamPkts)
      ensures Added(b, old(ix), old(streams), ix, streams)
      ensures IsStream(b) ==>
                && next == old(next)
                && nStream == old(nStream) + |b.reqs| && nInflight == old(nInflight) && nOrphanResp == old(nOrphanResp)
      ensures !IsStream(b) ==>
                && next == old(next) + |b.reqs| && nStream == old(nStream) && Numbered(ix[b.key], old(next))
                && nInflight == old(nInflight) + (if |b.reqs| > |b.resps| then |b.reqs| - |b.resps| else 0)
                && nOrphanResp == old(nOrphanResp) + (if |b.resps| > |b.reqs| then |b.resps| - |b.reqs| else 0)
    {
      var stream, e, inflight := Correlate(b, next);
      if stream {
        StreamKeepsKeys(ix, streams, b.key);
        streams := streams + {b.key};
        nStream := nStream + |b.reqs|;
        return;
      }
      AddKeepsKeys(ix, streams, b.key, e);
      AddKeepsFids(ix, next, b.key, e);
      next := next + |b.reqs|;
      nInflight := nInflight + inflight;
      nTxn := nTxn + |b.reqs|;
      if |b.resps| > |b.reqs| {
        nOrphanResp := nOrphanResp + (|b.resps| - |b.reqs|);
      }
      ix := ix[b.key := e];
    }

    /** fid: the flow of a packet, counted as bound, unbound or part of a stream. */
    method Fid(key: Key, cyc: nat, isResp: bool) returns (r: Option<nat>)
      requires Valid()
      modifies this`bound, this`unbound, this`streamPkts
      ensures Valid()
      ensures bound + unbound + streamPkts == old(bound + unbound + streamPkts) + 1
      ensures streamPkts == old(streamPkts) + (if key in streams then 1 else 0)
      ensures bound == old(bound) + (if r.Some? then 1 else 0)
      ensures key in streams ==> r.None?
      ensures key !in streams && key !in ix ==> r.None?
      ensures key !in streams && key in ix ==> Scan(ix[key].ivs, cyc, isResp, r)
    {
      if key in streams {
        streamPkts := streamPkts + 1;
        return None;
      }
      if key in ix {
        assert KeyOk(ix, streams, key);
        r := Lookup(ix[key], cyc, isResp);
        if r.Some? {
          bound := bound + 1;
          return r;
        }
      }
      unbound := unbound + 1;
      return None;
    }
  }

  /** Two requesters differ, as the keys of a dictionary do. */
  ghost predicate PortsDistinct(ports: seq<Port>) {
    forall p, q {:trigger ports[p], ports[q]} :: 0 <= p < q < |ports| ==>
      (ports[p].group, ports[p].tile, ports[p].idx) != (ports[q].group, ports[q].tile, ports[q].idx)
  }

  ghost predicate From(p: Port, k: Key) {
    k.group == p.group && k.tile == p.tile && k.idx == p.idx
  }

  lemma {:induction false} BucketEntryOk(b: Bucket, e: Entry)
    requires e.rcs == Rcs(b) && e.scs == Scs(b) && |e.ivs| == |b.reqs|
    requires forall k {:trigger e.ivs[k]} :: 0 <= k < |e.ivs| ==> e.ivs[k].req == e.rcs[k] && e.ivs[k].resp == e.scs[k]
    ensures EntryOk(e)
  {
    SortFacts(b.reqs);
    SortFacts(b.resps);
    PairingSorted(|b.reqs|, Sort(b.resps));
  }

  // ---------------------------------------------------------------------------------------------
  // From a run of events to the index
  // ---------------------------------------------------------------------------------------------

  /** What happened at the requester ports, in time order. */
  datatype Event = Request(key: Key, cyc: nat) | Response(key: Key, cyc: nat)

  function Issued(ev: seq<Event>, k: Key): seq<nat> {
    if ev == [] then [] else
      var e := ev[|ev| - 1];
      Issued(ev[..|ev| - 1], k) + (if e.Request? && e.key == k then [e.cyc] else [])
  }

  function Returned(ev: seq<Event>, k: Key): seq<nat> {
    if ev == [] then [] else
      var e := ev[|ev| - 1];
      Returned(ev[..|ev| - 1], k) + (if e.Response? && e.key == k then [e.cyc] else [])
  }

  /** A run in which time does not go back, an id is not reissued until its response has returned, and
      a response answers the outstanding request. */
  ghost predicate Run(ev: seq<Event>) {
    ev == [] ||
      var before, e := ev[..|ev| - 1], ev[|ev| - 1];
      && Run(before)
      && (before != [] ==> before[|before| - 1].cyc <= e.cyc)
      && |Issued(before, e.key)| == |Returned(before, e.key)| + (if e.Request? then 0 else 1)
  }

  ghost predicate UpTo(s: seq<nat>, cyc: nat) {
    forall i {:trigger s[i]} :: 0 <= i < |s| ==> s[i] <= cyc
  }

  lemma {:induction false} RunIsTrue(ev: seq<Event>, k: Key)
    requires Run(ev)
    ensures TrueRun(Issued(ev, k), Returned(ev, k))
    ensures ev != [] ==> UpTo(Issued(ev, k), ev[|ev| - 1].cyc) && UpTo(Returned(ev, k), ev[|ev| - 1].cyc)
    decreases |ev|
  {
    if ev != [] {
      var before, e := ev[..|ev| - 1], ev[|ev| - 1];
      RunIsTrue(before, k);
      StillUpTo(before, e.cyc, k);
      RunStep(ev, before, e, k);
    }
  }

  lemma {:induction false} StillUpTo(before: seq<Event>, cyc: nat, k: Key)
    requires before != [] ==> before[|before| - 1].cyc <= cyc
    requires before != [] ==> UpTo(Issued(before, k), before[|before| - 1].cyc) && UpTo(Returned(before, k), before[|before| - 1].cyc)
    ensures UpTo(Issued(before, k), cyc) && UpTo(Returned(before, k), cyc)
  {
    if before != [] {
      UpToOn(Issued(before, k), before[|before| - 1].cyc, cyc);
      UpToOn(Returned(before, k), before[|before| - 1].cyc, cyc);
    }
  }

  lemma {:induction false} RunStep(ev: seq<Event>, before: seq<Event>, e: Event, k: Key)
    requires ev != [] && before == ev[..|ev| - 1] && e == ev[|ev| - 1]
    requires |Issued(before, e.key)| == |Returned(before, e.key)| + (if e.Request? then 0 else 1)
    requires TrueRun(Issued(before, k), Returned(before, k)) && UpTo(Issued(before, k), e.cyc) && UpTo(Returned(before, k), e.cyc)
    ensures TrueRun(Issued(ev, k), Returned(ev, k)) && UpTo(Issued(ev, k), e.cyc) && UpTo(Returned(ev, k), e.cyc)
  {
    var reqs, resps := Issued(before, k), Returned(before, k);
    if e.key != k {
      assert Issued(ev, k) == reqs && Returned(ev, k) == resps;
    } else {
      TrueRunOn(reqs, resps, e.cyc, e.Request?);
      if e.Request? {
        assert Issued(ev, k) == reqs + [e.cyc] && Returned(ev, k) == resps;
      } else {
        assert Issued(ev, k) == reqs && Returned(ev, k) == resps + [e.cyc];
      }
    }
  }

  lemma {:induction false} UpToOn(s: seq<nat>, a: nat, b: nat)
    requires UpTo(s, a) && a <= b
    ensures UpTo(s, b)
  {
  }

  lemma {:induction false} TrueRunOn(reqs: seq<nat>, resps: seq<nat>, cyc: nat, isReq: bool)
    requires TrueRun(reqs, resps) && |reqs| == |resps| + (if isReq then 0 else 1)
    requires UpTo(reqs, cyc) && UpTo(resps, cyc)
    ensures if isReq then TrueRun(reqs + [cyc], resps) && UpTo(reqs + [cyc], cyc)
            else TrueRun(reqs, resps + [cyc]) && UpTo(resps + [cyc], cyc)
  {
  }

  /** The trace lists every event of the run at its requester, in whatever order. */
  ghost predicate Traces(ports: seq<Port>, ev: seq<Event>) {
    forall p, m {:trigger BucketOf(ports[p], m)} :: 0 <= p < |ports| ==>
      var b := BucketOf(ports[p], m);
      multiset(b.reqs) == multiset(Issued(ev, b.key)) && multiset(b.resps) == multiset(Returned(ev, b.key))
  }

  /** The index of a traced run holds exactly its transactions: a key is present iff it issued a
      request, with its requests in issue order, each paired with its own response. */
  lemma {:induction false} IndexIsRun(ports: seq<Port>, ev: seq<Event>, ix: Index, streams: set<Key>, p: nat, m: nat)
    requires Run(ev) && Traces(ports, ev) && p < |ports| && Holds(BucketOf(ports[p], m), ix, streams)
    ensures var k := BucketOf(ports[p], m).key;
            && k !in streams && (k in ix <==> Issued(ev, k) != [])
            && (k in ix ==> ix[k].rcs == Issued(ev, k) && ix[k].scs == Pairing(|Issued(ev, k)|, Returned(ev, k)))
  {
    var b := BucketOf(ports[p], m);
    RunIsTrue(ev, b.key);
    RecoversTransactions(Issued(ev, b.key), Returned(ev, b.key), b.reqs, b.resps);
    assert |multiset(b.reqs)| == |b.reqs|;
    assert |Sort(b.reqs)| == |b.reqs|;
  }

  /** In such a run no bucket is a stream. */
  lemma {:induction false} NoStreams(ports: seq<Port>, ev: seq<Event>, ix: Index, streams: set<Key>)
    requires Run(ev) && Traces(ports, ev)
    requires forall p, m {:trigger BucketOf(ports[p], m)} :: 0 <= p < |ports| ==> Holds(BucketOf(ports[p], m), ix, streams)
    requires forall k {:trigger k in streams} :: k in streams ==> exists p :: 0 <= p < |ports| && From(ports[p], k)
    ensures streams == {}
  {
    if k :| k in streams {
      var p :| 0 <= p < |ports| && From(ports[p], k);
      assert BucketOf(ports[p], k.meta).key == k;
      IndexIsRun(ports, ev, ix, streams, p, k.meta);
    }
  }

  /** Every hop of the i-th transaction of a key, seen while it is in flight, resolves to the flow id of
      that transaction and of no other: a request hop before its response, a response hop after its request. */
  lemma {:induction false} HopOfRun(ev: seq<Event>, ix: Index, streams: set<Key>, k: Key, i: nat, cyc: nat, isResp: bool, r: Option<nat>)
    requires Run(ev) && KeysOk(ix, streams) && FidsUnique(ix) && k in ix && i < |Issued(ev, k)|
    requires ix[k].rcs == Issued(ev, k) && ix[k].scs == Pairing(|Issued(ev, k)|, Returned(ev, k))
    requires Issued(ev, k)[i] <= cyc && (i < |Returned(ev, k)| ==> cyc <= Returned(ev, k)[i])
    requires if isResp then Issued(ev, k)[i] < cyc else i < |Returned(ev, k)| ==> cyc < Returned(ev, k)[i]
    requires Scan(ix[k].ivs, cyc, isResp, r)
    ensures i < |ix[k].ivs| && r == Some(ix[k].ivs[i].fid)
    ensures forall l, j: nat {:trigger FidAt(ix, l, j)} :: l in ix && j < |ix[l].ivs| && r == Some(FidAt(ix, l, j)) ==> l == k && j == i
  {
    assert KeyOk(ix, streams, k);
    var iv := ix[k].ivs[i];
    assert iv.req == Issued(ev, k)[i] && iv.resp == ix[k].scs[i];
    HopBindsToOwn(ix[k], i, cyc, isResp, r);
    assert FidAt(ix, k, i) == iv.fid;
  }

  /** On a boundary cycle, exactly: a request hop resolves to its own transaction iff the next request has
      not been issued, a response hop iff the previous response has passed. */
  lemma {:induction false} HopExact(ix: Index, k: Key, i: nat, cyc: nat, isResp: bool, r: Option<nat>)
    requires FidsUnique(ix) && k in ix && EntryOk(ix[k]) && i < |ix[k].ivs| && Contains(ix[k].ivs[i], cyc)
    requires Scan(ix[k].ivs, cyc, isResp, r)
    ensures r == Some(FidAt(ix, k, i)) <==>
              if isResp then i == 0 || !Leq(At(cyc), ix[k].scs[i - 1]) else i + 1 == |ix[k].ivs| || cyc < ix[k].rcs[i + 1]
  {
    var e := ix[k];
    var j: nat :| j < |e.ivs| && Contains(e.ivs[j], cyc) && r == Some(e.ivs[j].fid)
      && forall l {:trigger e.ivs[l]} :: 0 <= l < |e.ivs| && Contains(e.ivs[l], cyc) ==> if isResp then j <= l else l <= j;
    assert FidAt(ix, k, i) == e.ivs[i].fid && FidAt(ix, k, j) == e.ivs[j].fid;
    assert if isResp then j <= i else i <= j;
    if isResp {
      if i > 0 && Leq(At(cyc), e.scs[i - 1]) {
        assert e.ivs[i - 1].req == e.rcs[i - 1] && e.rcs[i - 1] <= e.rcs[i];
      }
    } else {
      if i + 1 < |e.ivs| && e.rcs[i + 1] <= cyc {
        assert e.ivs[i + 1].resp == e.scs[i + 1] && Leq(e.scs[i], e.scs[i + 1]);
      }
    }
  }

  /** Number of entries without a response. */
  function CountInf(scs: seq<Time>): nat {
    if scs == [] then 0 else CountInf(scs[..|scs| - 1]) + (if scs[|scs| - 1].Inf? then 1 else 0)
  }

  /** The inner loop of _build: one interval per request, numbered on from `first`. */
  method MakeIntervals(rcs: seq<nat>, scs: seq<Time>, first: nat) returns (ivs: seq<Interval>, inflight: nat)
    requires |rcs| == |scs|
    ensures |ivs| == |rcs| && inflight == CountInf(scs)
    ensures forall k {:trigger ivs[k]} :: 0 <= k < |rcs| ==> ivs[k] == Interval(rcs[k], scs[k], first + k)
  {
    ivs, inflight := [], 0;
    for k := 0 to |rcs|
      invariant |ivs| == k && inflight == CountInf(scs[..k])
      invariant forall j {:trigger ivs[j]} :: 0 <= j < k ==> ivs[j] == Interval(rcs[j], scs[j], first + j)
    {
      ivs := ivs + [Interval(rcs[k], scs[k], first + k)];
      assert scs[..k + 1][..k] == scs[..k];
      if scs[k].Inf? {
        inflight := inflight + 1;
      }
    }
    assert scs[..|rcs|] == scs;
  }

  /** Sort, pair, look for an overlap, and number the intervals. */
  method Correlate(b: Bucket, first: nat) returns (stream: bool, e: Entry, inflight: nat)
    ensures stream == IsStream(b)
    ensures e.rcs == Rcs(b) && e.scs == Scs(b) && |e.ivs| == |b.reqs| && EntryOk(e) && Numbered(e, first)
    ensures !stream ==> !Overlaps(e.rcs, e.scs)
    ensures inflight == if |b.reqs| > |b.resps| then |b.reqs| - |b.resps| else 0
  {
    var rcs, resp := Sort(b.reqs), Sort(b.resps);
    var scs := Pairing(|rcs|, resp);
    stream := Overlaps(rcs, scs);
    var ivs;
    ivs, inflight := MakeIntervals(rcs, scs, first);
    InflightCount(rcs, resp);
    e := Entry(rcs, scs, ivs);
    BucketEntryOk(b, e);
  }

  lemma {:induction false} InflightCount(rcs: seq<nat>, resp: seq<nat>)
    ensures CountInf(Pairing(|rcs|, resp)) == if |rcs| > |resp| then |rcs| - |resp| else 0
    decreases |rcs|
  {
    if rcs != [] {
      var before := rcs[..|rcs| - 1];
      InflightCount(before, resp);
      assert Pairing(|rcs|, resp)[..|rcs| - 1] == Pairing(|before|, resp);
    }
  }
}
