/** Pull requests of the gossip client: partition masks (`crds_filter.rs`), the packet budget of the
    filter (`pull_request.rs`) and the rotation over partitions (`lib.rs`). */
module Gossip {
  import opened Options
  import opened Arithmetic
  import opened Gf256

  // ---- Partition masks ----

  /** `u64::MAX >> k` */
  function Ones(k: nat): nat
    requires k <= 64
  {
    (TWO_64 - 1) / Pow2(k)
  }

  /** The mask of a partition: the seed in the top `maskBits` bits, ones below. */
  function ComputeMask(seed: nat, maskBits: nat): nat
    requires maskBits == 0 || (maskBits <= 64 && seed < Pow2(maskBits))
  {
    if maskBits == 0 then TWO_64 - 1
    else
      var prefix := if maskBits == 64 then seed else seed * Pow2(64 - maskBits);
      var suffix := if maskBits == 64 then 0 else Ones(maskBits);
      Or(prefix, suffix)
  }

  /** The number of seeds that `new_seeded` tells apart, and that are enumerated. */
  function Partitions(maskBits: nat): (n: nat)
    ensures n >= 1
  {
    Pow2(if maskBits <= 63 then maskBits else 63)
  }

  /** The seed that `new_seeded` uses, brought into the range of partitions. */
  function ClampSeed(seed: nat, maskBits: nat): (s: nat)
    ensures s < Partitions(maskBits)
    ensures s < Pow2(maskBits)
  {
    Pow2Monotone(if maskBits <= 63 then maskBits else 63, maskBits);
    seed % Partitions(maskBits)
  }

  /** A filter matches the hashes whose top bits, all bits below being set, equal its mask. */
  predicate Matches(hash: nat, mask: nat, maskBits: nat)
    requires maskBits <= 64
  {
    Or(hash, Ones(maskBits)) == mask
  }

  lemma OnesAreLow(k: nat)
    requires k <= 64
    ensures Ones(k) == Pow2(64 - k) - 1
  {
    hide Pow2;
    Pow2Of64();
    Pow2Add(64 - k, k);
    MulStep(Pow2(64 - k) - 1, Pow2(k));
    QuotientUnique(Pow2(64 - k) - 1, Pow2(k) - 1, Pow2(k));
  }

  lemma MaskParts(seed: nat, maskBits: nat)
    requires maskBits <= 64 && seed < Pow2(maskBits)
    ensures ComputeMask(seed, maskBits) == seed * Pow2(64 - maskBits) + Ones(maskBits) < TWO_64
  {
    hide Pow2, Ones, Or;
    var w := Pow2(64 - maskBits);
    OnesAreLow(maskBits);
    Pow2Of64();
    Pow2Add(maskBits, 64 - maskBits);
    assert Pow2(0) == 1 by { Pow2Zero(); }
    BelowMultiple(seed, w, Pow2(maskBits));
    OrDisjoint(w - 1, seed, 64 - maskBits);
  }

  lemma Pow2Zero()
    ensures Pow2(0) == 1
  {}

  /** What the documentation promises: a partition holds the hashes whose top bits are its seed. */
  lemma MatchesTopBits(hash: nat, seed: nat, maskBits: nat)
    requires maskBits <= 64 && seed < Pow2(maskBits)
    ensures Matches(hash, ComputeMask(seed, maskBits), maskBits) <==> hash / Pow2(64 - maskBits) == seed
  {
    hide Pow2, ComputeMask, Ones, Or;
    var w := Pow2(64 - maskBits);
    OnesAreLow(maskBits);
    MaskParts(seed, maskBits);
    OrLowOnes(hash / w, hash % w, 64 - maskBits);
    assert hash == (hash / w) * w + hash % w;
    SameMultiple(hash / w, seed, w);
  }

  /** The partitions cut the 64-bit hashes exactly: every hash matches one seed and no other. */
  lemma MasksPartition(hash: nat, maskBits: nat) returns (home: nat)
    requires hash < TWO_64 && maskBits <= 64
    ensures home < Pow2(maskBits)
    ensures forall seed: nat :: seed < Pow2(maskBits) ==>
      (Matches(hash, ComputeMask(seed, maskBits), maskBits) <==> seed == home)
  {
    hide Pow2, Matches, ComputeMask;
    var w := Pow2(64 - maskBits);
    home := hash / w;
    Pow2Of64();
    Pow2Add(maskBits, 64 - maskBits);
    if home >= Pow2(maskBits) { QuotientTooBig(hash, w, Pow2(maskBits)); }
    forall seed: nat | seed < Pow2(maskBits)
      ensures Matches(hash, ComputeMask(seed, maskBits), maskBits) <==> seed == home
    {
      MatchesTopBits(hash, seed, maskBits);
    }
  }

  lemma QuotientTooBig(a: nat, w: nat, n: nat)
    requires w >= 1 && a / w >= n
    ensures a >= n * w
  {
    MulMonotone(n, a / w, w);
  }

  /** Any other seed counts like the one it leaves after dividing by the number of partitions. */
  lemma ClampWraps(seed: nat, k: nat, maskBits: nat)
    ensures ClampSeed(seed + k * Partitions(maskBits), maskBits) == ClampSeed(seed, maskBits)
  {
    AddMultiple(seed, k, Partitions(maskBits));
  }

  /** Each seed below the number of partitions is its own clamp, so its request has its own mask. */
  lemma SeedsDistinct(maskBits: nat, s: nat, t: nat)
    requires maskBits <= 63 && s < Pow2(maskBits) && t < Pow2(maskBits)
    ensures ClampSeed(s, maskBits) == s
    ensures ComputeMask(s, maskBits) == ComputeMask(t, maskBits) <==> s == t
  {
    hide Pow2;
    MaskParts(s, maskBits);
    MaskParts(t, maskBits);
    SameMultiple(s, t, Pow2(64 - maskBits));
    SmallMod(s, Pow2(maskBits));
  }

  // ---- Packet budget ----

  const PACKET_DATA_SIZE: nat := 1232

  /** The serialized size of a filter with the given budget; none when serializing fails. */
  type Sizes = nat -> Option<nat>

  ghost predicate Fits(size: Sizes, budget: nat, target: nat) {
    1 <= budget <= 1232 && size(budget).Some? && size(budget).value <= target
  }

  /** `b` is the best of the budgets up to `upTo` for the target: none when none fits, else one of
      the greatest size that fits, and of those the greatest. */
  ghost predicate Best(size: Sizes, b: nat, target: nat, upTo: nat) {
    && (b == 0 || (b <= upTo && Fits(size, b, target)))
    && forall c :: 1 <= c <= upTo && Fits(size, c, target) ==>
      b != 0 && (size(c).value < size(b).value || (size(c) == size(b) && c <= b))
  }

  /** Entry by entry: the greatest budget up to `upTo` of exactly that size. */
  ghost predicate Exact(size: Sizes, b: nat, target: nat, upTo: nat) {
    && (b == 0 || (b <= upTo && Fits(size, b, target) && size(b).value == target))
    && forall c :: 1 <= c <= upTo && Fits(size, c, target) && size(c).value == target ==> c <= b
  }

  /** The table holds the best budget for every target. */
  ghost predicate IsCache(size: Sizes, cache: seq<nat>) {
    |cache| == 1233 && forall t :: 0 <= t < |cache| ==> Best(size, cache[t], t, 1232)
  }

  method BuildCache(size: Sizes) returns (cache: seq<nat>)
    ensures IsCache(size, cache)
  {
    var a := new nat[PACKET_DATA_SIZE + 1](_ => 0);
    for budget := 1 to PACKET_DATA_SIZE + 1
      invariant forall t :: 0 <= t < a.Length ==> Exact(size, a[t], t, budget - 1)
    {
      match size(budget) {
        case Some(idx) =>
          if idx <= PACKET_DATA_SIZE {
            a[idx] := budget;
          }
        case None =>
      }
    }
    var last := 0;
    for i := 0 to a.Length
      invariant forall t :: i <= t < a.Length ==> Exact(size, a[t], t, PACKET_DATA_SIZE)
      invariant forall t :: 0 <= t < i ==> Best(size, a[t], t, PACKET_DATA_SIZE)
      invariant last == if i == 0 then 0 else a[i - 1]
    {
      FillStep(size, a[i], last, i);
      if a[i] == 0 {
        a[i] := last;
      }
      last := a[i];
    }
    cache := a[..];
  }

  /** One step of the forward fill: an empty entry takes over the best of the target below it. */
  lemma FillStep(size: Sizes, exact: nat, last: nat, target: nat)
    requires target <= PACKET_DATA_SIZE && Exact(size, exact, target, PACKET_DATA_SIZE)
    requires if target == 0 then last == 0 else Best(size, last, target - 1, PACKET_DATA_SIZE)
    ensures Best(size, if exact == 0 then last else exact, target, PACKET_DATA_SIZE)
  {
    forall c | 1 <= c <= PACKET_DATA_SIZE && Fits(size, c, target) && size(c).value != target
      ensures target > 0 && Fits(size, c, target - 1)
    {}
  }

  /** No filter is smaller than one of a lesser budget. */
  ghost predicate Monotone(size: Sizes) {
    forall b, c :: b <= c ==> size(b).Some? && size(c).Some? && size(b).value <= size(c).value
  }

  /** A request of a caller of the given size, with a filter of this budget and its 4-byte tag, is
      within one packet; and none with a larger budget is, if filters grow with the budget. */
  ghost predicate FitsPacket(size: Sizes, callerSize: nat, budget: nat) {
    && (budget != 0 ==> size(budget).Some? && 4 + callerSize + size(budget).value <= 1232)
    && (Monotone(size) ==>
      forall c :: budget < c <= 1232 ==> 4 + callerSize + size(c).value > 1232)
  }

  /** The best budget for what the caller leaves of a packet; the table has an entry for it. */
  function GetMaxBloomFilterBytes(ghost size: Sizes, cache: seq<nat>, callerSize: nat): (budget: nat)
    requires IsCache(size, cache) && forall b :: size(b).Some? ==> size(b).value > 0
    ensures FitsPacket(size, callerSize, budget)
  {
    var target := if 4 + callerSize <= PACKET_DATA_SIZE then PACKET_DATA_SIZE - (4 + callerSize) else 0;
    var budget := cache[target];
    BestFitsPacket(size, callerSize, target, budget);
    budget
  }

  lemma BestFitsPacket(size: Sizes, callerSize: nat, target: nat, budget: nat)
    requires Best(size, budget, target, PACKET_DATA_SIZE) && forall b :: size(b).Some? ==> size(b).value > 0
    requires target == if 4 + callerSize <= PACKET_DATA_SIZE then PACKET_DATA_SIZE - (4 + callerSize) else 0
    ensures FitsPacket(size, callerSize, budget)
  {
    if Monotone(size) {
      forall c | budget < c <= PACKET_DATA_SIZE ensures 4 + callerSize + size(c).value > PACKET_DATA_SIZE {
        assert size(budget).value <= size(c).value;
        assert Fits(size, c, target) <==> size(c).value <= target;
      }
    }
  }

  /** A filter of some budget fits beside a caller of this size. */
  ghost predicate LeavesRoom(size: Sizes, callerSize: nat) {
    exists budget :: 1 <= budget <= 1232
      && size(budget).Some? && 4 + callerSize + size(budget).value <= 1232
  }

  /** The budget is zero exactly for a caller that leaves no room for any filter. */
  lemma ZeroBudgetExactly(size: Sizes, cache: seq<nat>, callerSize: nat)
    requires IsCache(size, cache) && forall b :: size(b).Some? ==> size(b).value > 0
    ensures GetMaxBloomFilterBytes(size, cache, callerSize) == 0 <==> !LeavesRoom(size, callerSize)
  {
    var target := if 4 + callerSize <= PACKET_DATA_SIZE then PACKET_DATA_SIZE - (4 + callerSize) else 0;
    assert Best(size, GetMaxBloomFilterBytes(size, cache, callerSize), target, PACKET_DATA_SIZE);
    if LeavesRoom(size, callerSize) {
      var budget :| 1 <= budget <= PACKET_DATA_SIZE
        && size(budget).Some? && 4 + callerSize + size(budget).value <= PACKET_DATA_SIZE;
      assert Fits(size, budget, target);
    }
  }

  method RequestBudget(size: Sizes, callerSize: nat) returns (budget: nat)
    requires forall b :: size(b).Some? ==> size(b).value > 0
    ensures FitsPacket(size, callerSize, budget)
  {
    var cache := BuildCache(size);
    budget := GetMaxBloomFilterBytes(size, cache, callerSize);
  }

  // ---- The requests of one round ----

  /** A pull request, as far as its filter goes. */
  datatype PullRequest = PullRequest(bloom: Bytes, mask: nat, maskBits: nat)

  ghost predicate IsRequestFor(request: PullRequest, seed: nat, maskBits: nat)
    requires maskBits <= 64
  {
    request.maskBits == maskBits && request.mask == ComputeMask(ClampSeed(seed, maskBits), maskBits)
  }

  /** The request asks for this hash. */
  predicate Asks(request: PullRequest, hash: nat)
    requires request.maskBits <= 64
  {
    Matches(hash, request.mask, request.maskBits)
  }

  /** One request for every partition, in order. */
  ghost predicate Enumerates<Message>(messages: seq<Message>, decode: Message -> PullRequest, maskBits: nat)
    requires maskBits <= 64
  {
    && |messages| == Partitions(maskBits)
    && forall i :: 0 <= i < |messages| ==> IsRequestFor(decode(messages[i]), i, maskBits)
  }

  /** `new_seeded`: the Bloom filter's bits are drawn at random. */
  function NewSeeded(bloom: Bytes, maskBits: nat, seed: nat): (request: PullRequest)
    requires maskBits <= 64
    ensures IsRequestFor(request, seed, maskBits) && request.bloom == bloom
  {
    PullRequest(bloom, ComputeMask(ClampSeed(seed, maskBits), maskBits), maskBits)
  }

  /** Builds the requests of one round. The caller's signed contact info, whose size is none when it
      does not serialize, goes into every request, so it is part of `encode`. `blooms` are the filters
      drawn for the seeds. A caller that leaves no room for a filter stops the program: a filter
      without budget has no items, and its number of mask bits is out of bounds. */
  method CreatePullRequestMessages<Message>(hasSocket: bool, callerSize: Option<nat>,
    ghost size: Sizes, cache: seq<nat>, maskBitsFor: nat -> nat, blooms: (nat, nat) -> Bytes,
    encode: PullRequest -> Option<Message>, ghost decode: Message -> PullRequest)
    returns (messages: Option<seq<Message>>)
    requires IsCache(size, cache) && (forall b :: size(b).Some? ==> size(b).value > 0)
    requires forall budget :: budget > 0 ==> maskBitsFor(budget) <= 64
    requires hasSocket && callerSize.Some? ==> LeavesRoom(size, callerSize.value)
    requires forall r :: encode(r).Some? ==> decode(encode(r).value) == r
    ensures !hasSocket || callerSize.None? ==> messages.None?
    ensures hasSocket && callerSize.Some? ==>
      var budget := GetMaxBloomFilterBytes(size, cache, callerSize.value);
      var maskBits := maskBitsFor(budget);
      && budget > 0 && maskBits <= 64 && FitsPacket(size, callerSize.value, budget)
      && (messages.Some? <==> forall seed: nat :: seed < Partitions(maskBits) ==>
        encode(NewSeeded(blooms(budget, seed), maskBits, seed)).Some?)
      && (messages.Some? ==> Enumerates(messages.value, decode, maskBits))
      && (messages.Some? ==> forall i :: 0 <= i < |messages.value| ==>
        encode(NewSeeded(blooms(budget, i), maskBits, i)) == Some(messages.value[i])
        && decode(messages.value[i]).bloom == blooms(budget, i))
  {
    hide Partitions, IsRequestFor, IsCache, FitsPacket, GetMaxBloomFilterBytes, LeavesRoom;
    if !hasSocket || callerSize.None? {
      return None;
    }
    var budget := GetMaxBloomFilterBytes(size, cache, callerSize.value);
    ZeroBudgetExactly(size, cache, callerSize.value);
    var maskBits := maskBitsFor(budget);
    var numPartitions := Partitions(maskBits);
    var built := [];
    for seed := 0 to numPartitions
      invariant |built| == seed
      invariant forall i :: 0 <= i < seed ==>
        encode(NewSeeded(blooms(budget, i), maskBits, i)) == Some(built[i])
    {
      var bytes := encode(NewSeeded(blooms(budget, seed), maskBits, seed));
      if bytes.None? {
        return None;
      }
      built := built + [bytes.value];
    }
    return Some(built);
  }

  /** The requests of one round, which the entrypoint is sent in full: with fewer than 64 mask bits
      exactly one of them asks for a given hash. */
  lemma OneRequestAsks<Message>(messages: seq<Message>, decode: Message -> PullRequest, maskBits: nat, hash: nat)
    returns (home: nat)
    requires maskBits <= 63 && Enumerates(messages, decode, maskBits) && hash < TWO_64
    ensures home < |messages|
    ensures forall i :: 0 <= i < |messages| ==> (Asks(decode(messages[i]), hash) <==> i == home)
  {
    hide Pow2, Matches, ComputeMask;
    home := MasksPartition(hash, maskBits);
    forall i | 0 <= i < |messages| ensures Asks(decode(messages[i]), hash) <==> i == home {
      SeedsDistinct(maskBits, i, 0);
      assert IsRequestFor(decode(messages[i]), i, maskBits);
    }
  }

  /** The enumeration reaches every hash exactly when there are fewer than 64 mask bits: with 64 the
      loop stops at half of the seeds. */
  ghost predicate ReachesAll(maskBits: nat)
    requires maskBits <= 64
  {
    forall hash: nat :: hash < TWO_64 ==> Reached(hash, maskBits)
  }

  ghost predicate Reached(hash: nat, maskBits: nat)
    requires maskBits <= 64
  {
    exists seed: nat ::
      seed < Partitions(maskBits) && Matches(hash, ComputeMask(ClampSeed(seed, maskBits), maskBits), maskBits)
  }

  lemma ReachesAllExactly(maskBits: nat)
    requires maskBits <= 64
    ensures ReachesAll(maskBits) <==> maskBits <= 63
  {
    hide Pow2, Matches, ComputeMask;
    if maskBits <= 63 {
      forall hash: nat | hash < TWO_64 ensures Reached(hash, maskBits) {
        var home := MasksPartition(hash, maskBits);
        SeedsDistinct(maskBits, home, 0);
        assert Matches(hash, ComputeMask(ClampSeed(home, maskBits), maskBits), maskBits);
      }
    } else {
      var last := TWO_64 - 1;
      Pow2Of64();
      Pow2Add(1, 63);
      assert Pow2(1) == 2 && Pow2(0) == 1 by { Pow2One(); }
      forall seed: nat | seed < Partitions(64)
        ensures !Matches(last, ComputeMask(ClampSeed(seed, 64), 64), 64)
      {
        MatchesTopBits(last, ClampSeed(seed, 64), 64);
      }
      assert !Reached(last, maskBits);
    }
  }

  lemma Pow2One()
    ensures Pow2(1) == 2 && Pow2(0) == 1
  {}

  // ---- Rotation ----

  /** What the pull loop remembers; the counter of rounds has 64 bits. */
  datatype LoopState<Peer> = LoopState(knownPeers: set<Peer>, pullRound: nat)

  /** New peers are learned, or a pull round is due. `messages` is what building the requests
      returned: nothing on failure. */
  datatype Event<Peer, Message> = Learn(peers: set<Peer>) | Tick(messages: Option<seq<Message>>)

  ghost function Step<Peer, Message>(entrypoint: Peer, st: LoopState<Peer>, event: Event<Peer, Message>)
    : LoopState<Peer>
  {
    match event
    case Learn(peers) => st.(knownPeers := st.knownPeers + peers)
    case Tick(messages) =>
      LoopState(
        if st.knownPeers == {} then {entrypoint} else st.knownPeers,
        if messages.Some? then (st.pullRound + 1) % TWO_64 else st.pullRound)
  }

  /** What a pull round sends to the peers other than the entrypoint. */
  ghost function PeerSends<Peer, Message>(entrypoint: Peer, st: LoopState<Peer>, messages: Option<seq<Message>>)
    : map<Peer, Message>
  {
    if messages.None? || messages.value == [] then map[]
    else map p | p in st.knownPeers && p != entrypoint :: messages.value[st.pullRound % |messages.value|]
  }

  class PullLoop<Peer(==)> {
    const entrypoint: Peer
    var knownPeers: set<Peer>
    var pullRound: nat

    ghost function State(): LoopState<Peer>
      reads this
    {
      LoopState(knownPeers, pullRound)
    }

    constructor (entrypoint: Peer)
      ensures this.entrypoint == entrypoint && State() == LoopState({entrypoint}, 0)
    {
      this.entrypoint := entrypoint;
      knownPeers := {entrypoint};
      pullRound := 0;
    }

    method LearnPeers<Message>(peers: set<Peer>)
      modifies this
      ensures knownPeers == old(knownPeers) + peers && pullRound == old(pullRound)
      ensures State() == Step<Peer, Message>(entrypoint, old(State()), Learn(peers))
    {
      knownPeers := knownPeers + peers;
    }

    /** One pull round. The entrypoint is sent all messages, every other known peer the one of this
        round's partition. */
    method Round<Message>(messages: Option<seq<Message>>)
      returns (toEntrypoint: seq<Message>, toPeers: map<Peer, Message>)
      modifies this
      ensures knownPeers == if old(knownPeers) == {} then {entrypoint} else old(knownPeers)
      ensures pullRound == if messages.Some? then (old(pullRound) + 1) % TWO_64 else old(pullRound)
      ensures forall p :: p in toPeers <==>
        messages.Some? && messages.value != [] && p in old(knownPeers) && p != entrypoint
      ensures forall p :: p in toPeers ==> toPeers[p] == messages.value[old(pullRound) % |messages.value|]
      ensures State() == Step(entrypoint, old(State()), Tick(messages))
      ensures toEntrypoint == if messages.Some? then messages.value else []
      ensures toPeers == PeerSends(entrypoint, old(State()), messages)
    {
      toEntrypoint, toPeers := [], map[];
      if knownPeers == {} {
        knownPeers := {entrypoint};
      }
      if messages.Some? {
        toEntrypoint := messages.value;
        var num := |messages.value|;
        if num > 0 {
          var idx := pullRound % num;
          var rest := knownPeers - {entrypoint};
          while rest != {}
            invariant rest <= knownPeers - {entrypoint}
            invariant toPeers == map p | p in knownPeers - {entrypoint} - rest :: messages.value[idx]
            decreases rest
          {
            var peer :| peer in rest;
            toPeers := toPeers[peer := messages.value[idx]];
            rest := rest - {peer};
          }
        }
        pullRound := (pullRound + 1) % TWO_64;
      }
    }
  }

  // ---- Runs of the loop ----

  ghost function RunLoop<Peer, Message>(entrypoint: Peer, st: LoopState<Peer>, events: seq<Event<Peer, Message>>)
    : LoopState<Peer>
  {
    if events == [] then st
    else Step(entrypoint, RunLoop(entrypoint, st, events[..|events| - 1]), events[|events| - 1])
  }

  /** The messages that a run sends to a peer, in order. */
  ghost function SentTo<Peer, Message>(
    entrypoint: Peer, st: LoopState<Peer>, events: seq<Event<Peer, Message>>, peer: Peer)
    : seq<Message>
  {
    if events == [] then []
    else
      var before, event := events[..|events| - 1], events[|events| - 1];
      var sent := SentTo(entrypoint, st, before, peer);
      if event.Learn? then sent
      else
        var sends := PeerSends(entrypoint, RunLoop(entrypoint, st, before), event.messages);
        if peer in sends then sent + [sends[peer]] else sent
  }

  ghost function Successes<Peer, Message>(events: seq<Event<Peer, Message>>): nat {
    if events == [] then 0
    else
      Successes(events[..|events| - 1])
      + if events[|events| - 1].Tick? && events[|events| - 1].messages.Some? then 1 else 0
  }

  /** Every round that succeeds sends one request for each partition. */
  ghost predicate AllEnumerate<Peer, Message>(
    events: seq<Event<Peer, Message>>, decode: Message -> PullRequest, maskBits: nat)
    requires maskBits <= 63
  {
    forall i :: 0 <= i < |events| && events[i].Tick? && events[i].messages.Some? ==>
      Enumerates(events[i].messages.value, decode, maskBits)
  }

  /** The partition of the `k`-th request to a peer, when the counter stood at `start` before. */
  function SentIndex(start: nat, k: nat, maskBits: nat): (i: nat)
    ensures i < Pow2(maskBits)
  {
    ((start + k) % TWO_64) % Pow2(maskBits)
  }

  /** A round sends to every known peer but the entrypoint, and to nobody else. */
  lemma PeerSent<Peer, Message>(entrypoint: Peer, st: LoopState<Peer>, messages: Option<seq<Message>>, peer: Peer)
    ensures var sends := PeerSends(entrypoint, st, messages);
      && (peer in sends <==> messages.Some? && messages.value != [] && peer in st.knownPeers && peer != entrypoint)
      && (peer in sends ==> sends[peer] == messages.value[st.pullRound % |messages.value|])
  {}

  /** What the last event of a run does for a peer that is known before it. */
  lemma LastEvent<Peer, Message>(
    entrypoint: Peer, st: LoopState<Peer>, events: seq<Event<Peer, Message>>, peer: Peer)
    requires events != [] && peer != entrypoint
    requires peer in RunLoop(entrypoint, st, events[..|events| - 1]).knownPeers
    requires var event := events[|events| - 1];
      event.Tick? && event.messages.Some? ==> event.messages.value != []
    ensures var before, event := events[..|events| - 1], events[|events| - 1];
      var mid, end := RunLoop(entrypoint, st, before), RunLoop(entrypoint, st, events);
      var sent, sent' := SentTo(entrypoint, st, before, peer), SentTo(entrypoint, st, events, peer);
      && peer in end.knownPeers
      && if event.Tick? && event.messages.Some? then
           && Successes(events) == Successes(before) + 1
           && end.pullRound == (mid.pullRound + 1) % TWO_64
           && sent' == sent + [event.messages.value[mid.pullRound % |event.messages.value|]]
         else
           Successes(events) == Successes(before) && end.pullRound == mid.pullRound && sent' == sent
  {
    hide PeerSends;
    var event := events[|events| - 1];
    if event.Tick? {
      PeerSent(entrypoint, RunLoop(entrypoint, st, events[..|events| - 1]), event.messages, peer);
    }
  }

  lemma IndexOfRound(start: nat, k: nat, maskBits: nat)
    requires maskBits <= 63
    ensures ((start + k) % TWO_64) % Partitions(maskBits) == SentIndex(start, k, maskBits) < Partitions(maskBits)
  {
    hide Pow2;
  }

  /** The `k`-th message is the request for the `k`-th partition of the rotation. */
  ghost predicate InRotation<Message>(sent: seq<Message>, decode: Message -> PullRequest, start: nat, maskBits: nat)
    requires maskBits <= 63
  {
    forall k :: 0 <= k < |sent| ==> IsRequestFor(decode(sent[k]), SentIndex(start, k, maskBits), maskBits)
  }

  lemma NothingSent<Message>(decode: Message -> PullRequest, start: nat, maskBits: nat)
    requires maskBits <= 63
    ensures InRotation([], decode, start, maskBits)
  {}

  /** A round that enumerates the partitions has the next request of the rotation. */
  lemma RoundSends<Message>(
    sent: seq<Message>, messages: seq<Message>, decode: Message -> PullRequest, start: nat, maskBits: nat)
    requires maskBits <= 63 && InRotation(sent, decode, start, maskBits) && Enumerates(messages, decode, maskBits)
    ensures messages != []
    ensures InRotation(sent + [messages[((start + |sent|) % TWO_64) % |messages|]], decode, start, maskBits)
  {
    hide IsRequestFor, SentIndex, Partitions;
    IndexOfRound(start, |sent|, maskBits);
  }

  lemma EnumerateBefore<Peer, Message>(
    events: seq<Event<Peer, Message>>, decode: Message -> PullRequest, maskBits: nat)
    requires maskBits <= 63 && events != [] && AllEnumerate(events, decode, maskBits)
    ensures AllEnumerate(events[..|events| - 1], decode, maskBits)
    ensures var event := events[|events| - 1];
      event.Tick? && event.messages.Some? ==> Enumerates(event.messages.value, decode, maskBits)
  {
    hide Enumerates;
  }

  lemma OneMoreRound(start: nat, k: nat)
    ensures ((start + k) % TWO_64 + 1) % TWO_64 == (start + (k + 1)) % TWO_64
  {}

  /** Over any run of rounds that succeed or fail, and of learned peers: a known peer is sent one
      request in every successful round, the `k`-th one for partition `SentIndex(start, k, B)`. */
  lemma {:induction false} RequestsToPeer<Peer, Message>(
    entrypoint: Peer, st: LoopState<Peer>, events: seq<Event<Peer, Message>>, peer: Peer,
    decode: Message -> PullRequest, maskBits: nat)
    requires st.pullRound < TWO_64 && peer in st.knownPeers && peer != entrypoint
    requires maskBits <= 63 && AllEnumerate(events, decode, maskBits)
    ensures var sent, end := SentTo(entrypoint, st, events, peer), RunLoop(entrypoint, st, events);
      && |sent| == Successes(events)
      && end.pullRound == (st.pullRound + |sent|) % TWO_64 && peer in end.knownPeers
      && InRotation(sent, decode, st.pullRound, maskBits)
    decreases |events|
  {
    hide InRotation, Enumerates, AllEnumerate;
    if events == [] {
      SmallMod(st.pullRound, TWO_64);
      NothingSent(decode, st.pullRound, maskBits);
    } else {
      hide RunLoop, SentTo, Successes;
      var before, event := events[..|events| - 1], events[|events| - 1];
      EnumerateBefore(events, decode, maskBits);
      RequestsToPeer(entrypoint, st, before, peer, decode, maskBits);
      var sent := SentTo(entrypoint, st, before, peer);
      if event.Tick? && event.messages.Some? {
        RoundSends(sent, event.messages.value, decode, st.pullRound, maskBits);
        OneMoreRound(st.pullRound, |sent|);
      }
      LastEvent(entrypoint, st, events, peer);
    }
  }

  // ---- Peers that are learned on the way ----

  /** The peers that a run has learned. */
  ghost function Learned<Peer, Message>(events: seq<Event<Peer, Message>>): set<Peer> {
    if events == [] then {}
    else Learned(events[..|events| - 1]) + if events[|events| - 1].Learn? then events[|events| - 1].peers else {}
  }

  lemma {:induction false} LearnedExactly<Peer, Message>(events: seq<Event<Peer, Message>>, peer: Peer)
    ensures peer in Learned(events) <==> exists i :: 0 <= i < |events| && events[i].Learn? && peer in events[i].peers
    decreases |events|
  {
    if events != [] {
      var before := events[..|events| - 1];
      LearnedExactly(before, peer);
      assert forall i :: 0 <= i < |before| ==> before[i] == events[i];
      assert events[|events| - 1].Learn? && peer in events[|events| - 1].peers ==> peer in Learned(events);
    }
  }

  /** From a state with some known peer, known are that state's peers and those learned, and no others;
      and the counter has counted the successful rounds. */
  lemma {:induction false} KnownExactly<Peer, Message>(
    entrypoint: Peer, st: LoopState<Peer>, events: seq<Event<Peer, Message>>)
    requires st.knownPeers != {} && st.pullRound < TWO_64
    ensures var end := RunLoop(entrypoint, st, events);
      && end.knownPeers == st.knownPeers + Learned(events)
      && end.pullRound == (st.pullRound + Successes(events)) % TWO_64
    decreases |events|
  {
    if events == [] {
      SmallMod(st.pullRound, TWO_64);
    } else {
      var before := events[..|events| - 1];
      KnownExactly(entrypoint, st, before);
      OneMoreRound(st.pullRound, Successes(before));
    }
  }

  lemma {:induction false} RunInParts<Peer, Message>(entrypoint: Peer, st: LoopState<Peer>,
    first: seq<Event<Peer, Message>>, second: seq<Event<Peer, Message>>, peer: Peer)
    ensures var mid := RunLoop(entrypoint, st, first);
      && RunLoop(entrypoint, st, first + second) == RunLoop(entrypoint, mid, second)
      && SentTo(entrypoint, st, first + second, peer)
        == SentTo(entrypoint, st, first, peer) + SentTo(entrypoint, mid, second, peer)
    decreases |second|
  {
    hide Step, PeerSends;
    var all := first + second;
    if second == [] {
      assert all == first;
    } else {
      RunInParts(entrypoint, st, first, second[..|second| - 1], peer);
      assert all[..|all| - 1] == first + second[..|second| - 1] && all[|all| - 1] == second[|second| - 1];
    }
  }

  /** A peer that a run has not learned, and the entrypoint, are sent nothing of the rotation. */
  lemma {:induction false} StrangersGetNothing<Peer, Message>(
    entrypoint: Peer, st: LoopState<Peer>, events: seq<Event<Peer, Message>>, peer: Peer)
    requires st.knownPeers != {} && st.pullRound < TWO_64
    requires peer == entrypoint || (peer !in st.knownPeers && peer !in Learned(events))
    ensures SentTo(entrypoint, st, events, peer) == []
    decreases |events|
  {
    hide PeerSends, RunLoop;
    if events != [] {
      var before, event := events[..|events| - 1], events[|events| - 1];
      StrangersGetNothing(entrypoint, st, before, peer);
      KnownExactly(entrypoint, st, before);
      if event.Tick? {
        PeerSent(entrypoint, RunLoop(entrypoint, st, before), event.messages, peer);
      }
    }
  }

  /** From the start of the loop: a peer first learned at event `i` is sent nothing before, and one
      request in each successful round after it, in the rotation from where the counter then stood. */
  lemma LearnedPeerRequested<Peer, Message>(
    entrypoint: Peer, events: seq<Event<Peer, Message>>, peer: Peer, i: nat,
    decode: Message -> PullRequest, maskBits: nat)
    requires peer != entrypoint && maskBits <= 63 && AllEnumerate(events, decode, maskBits)
    requires i < |events| && events[i].Learn? && peer in events[i].peers
    requires forall j :: 0 <= j < i && events[j].Learn? ==> peer !in events[j].peers
    ensures var start := LoopState({entrypoint}, 0);
      var sent := SentTo(entrypoint, start, events, peer);
      && SentTo(entrypoint, start, events[..i + 1], peer) == []
      && |sent| == Successes(events[i + 1..])
      && InRotation(sent, decode, Successes(events[..i]) % TWO_64, maskBits)
  {
    hide InRotation, Enumerates, PeerSends, RunLoop, SentTo, Step;
    var start, first, second := LoopState({entrypoint}, 0), events[..i + 1], events[i + 1..];
    assert first[..|first| - 1] == events[..i];
    LearnedExactly(events[..i], peer);
    StrangersGetNothing(entrypoint, start, events[..i], peer);
    LearnSendsNothing(entrypoint, start, first, peer);
    LearnedExactly(first, peer);
    KnownExactly(entrypoint, start, first);
    assert events == first + second;
    RunInParts(entrypoint, start, first, second, peer);
    var mid := RunLoop(entrypoint, start, first);
    assert [] + SentTo(entrypoint, mid, second, peer) == SentTo(entrypoint, mid, second, peer);
    RequestsToPeer(entrypoint, mid, second, peer, decode, maskBits);
  }

  lemma LearnSendsNothing<Peer, Message>(
    entrypoint: Peer, st: LoopState<Peer>, events: seq<Event<Peer, Message>>, peer: Peer)
    requires events != [] && events[|events| - 1].Learn?
    ensures SentTo(entrypoint, st, events, peer) == SentTo(entrypoint, st, events[..|events| - 1], peer)
    ensures Successes(events) == Successes(events[..|events| - 1])
  {}

  /** The number of partitions divides 2^64, so the wrap of the counter skips nothing. */
  lemma WrapKeepsRotation(n: nat, maskBits: nat)
    requires maskBits <= 64
    ensures (n % TWO_64) % Pow2(maskBits) == n % Pow2(maskBits)
  {
    hide Pow2;
    Pow2Of64();
    Pow2Add(64 - maskBits, maskBits);
    ModOfMod(n, Pow2(64 - maskBits), Pow2(maskBits));
  }

  /** In any window of 2^B requests, wherever it starts and even across the wrap of the counter, each
      partition occurs exactly once. */
  lemma RotationCovers(start: nat, first: nat, maskBits: nat, index: nat) returns (k: nat)
    requires maskBits <= 63 && index < Pow2(maskBits)
    ensures first <= k < first + Pow2(maskBits)
    ensures forall j: nat :: first <= j < first + Pow2(maskBits) ==>
      (SentIndex(start, j, maskBits) == index <==> j == k)
  {
    hide Pow2;
    var num := Pow2(maskBits);
    var s := (start + first) % num;
    k := first + if index >= s then index - s else index + num - s;
    forall j: nat | first <= j < first + num ensures SentIndex(start, j, maskBits) == index <==> j == k {
      WrapKeepsRotation(start + j, maskBits);
      RotatedHit(start + first, j - first, num, index);
    }
  }

  lemma RotatedHit(start: nat, k: nat, num: nat, index: nat)
    requires k < num && index < num
    ensures var s := start % num;
      (start + k) % num == index <==> k == if index >= s then index - s else index + num - s
  {
    RotatedIndex(start, k, num);
  }

  lemma RotatedIndex(start: nat, k: nat, num: nat)
    requires k < num
    ensures (start + k) % num == (if start % num + k < num then start % num + k else start % num + k - num)
  {
    var q, s := start / num, start % num;
    assert start == q * num + s;
    if s + k < num {
      QuotientUnique(q, s + k, num);
    } else {
      assert start + k == (q + 1) * num + (s + k - num);
      QuotientUnique(q + 1, s + k - num, num);
    }
  }

  /** Over any run of the loop: of any 2^B consecutive requests to a peer, exactly one asks for a
      given hash. Failed rounds in between, newly learned peers and the wrap of the counter do not
      matter. */
  lemma EveryHashRequestedOnce<Peer, Message>(
    entrypoint: Peer, st: LoopState<Peer>, events: seq<Event<Peer, Message>>, peer: Peer,
    decode: Message -> PullRequest, maskBits: nat, first: nat, hash: nat) returns (k: nat)
    requires st.pullRound < TWO_64 && peer in st.knownPeers && peer != entrypoint
    requires maskBits <= 63 && AllEnumerate(events, decode, maskBits)
    requires first + Pow2(maskBits) <= Successes(events) && hash < TWO_64
    ensures var sent := SentTo(entrypoint, st, events, peer);
      && |sent| == Successes(events)
      && first <= k < first + Pow2(maskBits)
      && forall j :: first <= j < first + Pow2(maskBits) ==>
        decode(sent[j]).maskBits == maskBits && (Asks(decode(sent[j]), hash) <==> j == k)
  {
    hide Pow2, Matches, ComputeMask, Step, RunLoop, SentTo, Successes, AllEnumerate, SentIndex;
    RequestsToPeer(entrypoint, st, events, peer, decode, maskBits);
    var home := MasksPartition(hash, maskBits);
    k := RotationCovers(st.pullRound, first, maskBits, home);
    var sent := SentTo(entrypoint, st, events, peer);
    forall j | first <= j < first + Pow2(maskBits)
      ensures decode(sent[j]).maskBits == maskBits && (Asks(decode(sent[j]), hash) <==> j == k)
    {
      SeedsDistinct(maskBits, SentIndex(st.pullRound, j, maskBits), 0);
    }
  }
}
