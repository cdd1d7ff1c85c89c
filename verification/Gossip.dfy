/** Gossip (`minichain/p2p.py`): the bounded set of seen ids, the accept-then-relay rule of one
    node, and what flooding does on a whole network. */
module Gossip {
  import opened Prelude

  type NodeId = string

  // ---- the seen set ----------------------------------------------------------------------

  function Except<T(==)>(order: seq<T>, id: T): seq<T> {
    if order == [] then [] else
    var front, x := Except(order[..|order| - 1], id), order[|order| - 1];
    if x == id then front else front + [x]
  }

  // OrderedDict: move to the end, then drop the oldest if there are too many.
  function Mark(order: seq<Hash>, id: Hash, max: nat): seq<Hash> {
    var moved := Except(order, id) + [id];
    if |moved| > max then moved[1..] else moved
  }

  function Seen(history: seq<Hash>, max: nat): seq<Hash> {
    if history == [] then [] else Mark(Seen(history[..|history| - 1], max), history[|history| - 1], max)
  }

  /** One node's side: its seen ids and its open streams. */
  class Peer {
    const max: nat
    var seen: seq<Hash>
    var streams: seq<NodeId>

    constructor (max: nat, streams: seq<NodeId>)
      ensures this.max == max && seen == [] && this.streams == streams
    {
      this.max, seen, this.streams := max, [], streams;
    }

    /** `_mark_seen` */
    method MarkSeen(id: Hash)
      modifies `seen
      ensures seen == Mark(old(seen), id, max)
    {
      var kept := [];
      var i := 0;
      while i < |seen|
        invariant 0 <= i <= |seen| && seen == old(seen) && kept == Except(seen[..i], id)
      {
        assert seen[..i + 1][..i] == seen[..i];
        if seen[i] != id {
          kept := kept + [seen[i]];
        }
        i := i + 1;
      }
      assert seen[..i] == seen;
      seen := kept + [id];
      if |seen| > max {
        seen := seen[1..];
      }
    }

    /** The reader's rule for a transaction or block: duplicates are dropped, what the handler
        accepts or does not judge is marked, and only what it found valid is passed on, never back
        to its sender. */
    method Receive(id: Hash, from: NodeId, verdict: Option<Status>) returns (relayTo: seq<NodeId>)
      modifies `seen
      ensures seen == if old(id in seen) || Rejects(verdict) then old(seen) else Mark(old(seen), id, max)
      ensures forall s :: s in relayTo <==> old(id !in seen) && verdict == Some(VALID) && s in streams && s != from
    {
      relayTo := [];
      if id in seen || Rejects(verdict) {
        return;
      }
      MarkSeen(id);
      if verdict == None {
        return;
      }
      var i := 0;
      while i < |streams|
        invariant 0 <= i <= |streams|
        invariant forall s :: s in relayTo <==> s in streams[..i] && s != from
      {
        if streams[i] != from {
          relayTo := relayTo + [streams[i]];
        }
        i := i + 1;
      }
    }
  }

  // A handler that answers nothing does not reject.
  predicate Rejects(verdict: Option<Status>) {
    verdict.Some? && verdict.value != VALID
  }

  function Elements(s: seq<Hash>): set<Hash> {
    set x | x in s
  }

  // All ids ever marked, by their last mark.
  function ByLastMark(history: seq<Hash>): seq<Hash> {
    if history == [] then [] else
    Except(ByLastMark(history[..|history| - 1]), history[|history| - 1]) + [history[|history| - 1]]
  }

  // The ids marked after id was last marked.
  function MarkedSince(history: seq<Hash>, id: Hash): set<Hash> {
    if history == [] || history[|history| - 1] == id then {} else
    MarkedSince(history[..|history| - 1], id) + {history[|history| - 1]}
  }

  lemma {:induction false} ExceptElements<T>(order: seq<T>, id: T)
    requires Distinct(order)
    ensures Distinct(Except(order, id)) && forall x :: x in Except(order, id) <==> x in order && x != id
    ensures id in order ==> |Except(order, id)| == |order| - 1
    ensures id !in order ==> Except(order, id) == order
  {
    if order != [] {
      var front, x := order[..|order| - 1], order[|order| - 1];
      assert forall i | 0 <= i < |front| :: front[i] == order[i];
      ExceptElements(front, id);
      assert order == front + [x];
      assert x !in front;
    }
  }

  lemma {:induction false} ExceptConcat(s: seq<Hash>, t: seq<Hash>, id: Hash)
    ensures Except(s + t, id) == Except(s, id) + Except(t, id)
    decreases |t|
  {
    if t == [] {
      assert s + t == s;
    } else {
      assert (s + t)[..|s + t| - 1] == s + t[..|t| - 1];
      ExceptConcat(s, t[..|t| - 1], id);
    }
  }

  function Last(s: seq<Hash>, n: nat): seq<Hash> {
    if |s| > n then s[|s| - n..] else s
  }

  lemma {:induction false} ByLastMarkElements(history: seq<Hash>)
    ensures Distinct(ByLastMark(history)) && forall x :: x in ByLastMark(history) <==> x in history
  {
    if history != [] {
      var front, x := history[..|history| - 1], history[|history| - 1];
      ByLastMarkElements(front);
      ExceptElements(ByLastMark(front), x);
      assert history == front + [x];
    }
  }

  // Marking commutes with keeping only the newest n.
  lemma MarkLast(order: seq<Hash>, id: Hash, n: nat)
    requires Distinct(order) && 1 <= n
    ensures Mark(Last(order, n), id, n) == Last(Except(order, id) + [id], n)
  {
    hide Except, Distinct;
    var cut := if |order| > n then |order| - n else 0;
    var dropped, kept := order[..cut], order[cut..];
    SuffixDistinct(order, cut);
    ExceptElements(kept, id);
    ExceptSplit(order, cut, id);
    if cut == 0 { ExceptNothing(id); }
    LastOfTail(Except(dropped, id), Except(kept, id) + [id], n);
  }

  lemma ExceptSplit(s: seq<Hash>, cut: nat, id: Hash)
    requires cut <= |s|
    ensures Except(s, id) + [id] == Except(s[..cut], id) + (Except(s[cut..], id) + [id])
  {
    hide Except;
    assert s == s[..cut] + s[cut..];
    ExceptConcat(s[..cut], s[cut..], id);
  }

  lemma ExceptNothing(id: Hash)
    ensures Except([], id) == []
  {
  }

  lemma LastOfTail(d: seq<Hash>, tail: seq<Hash>, n: nat)
    requires |tail| <= n + 1 && (n <= |tail| || d == [])
    ensures Last(d + tail, n) == if |tail| > n then tail[1..] else tail
  {
  }

  /** The bounded set is the newest `max` of all ids marked, in order of their last mark. */
  lemma {:induction false} SeenIsNewest(history: seq<Hash>, max: nat)
    requires 1 <= max
    ensures Seen(history, max) == Last(ByLastMark(history), max)
    decreases |history|
  {
    if history != [] {
      var front := history[..|history| - 1];
      SeenIsNewest(front, max);
      ByLastMarkElements(front);
      MarkLast(ByLastMark(front), history[|history| - 1], max);
    }
  }

  // Where an element goes when another is taken out, and what comes after it.
  lemma ExceptTail(s: seq<Hash>, i: nat, id: Hash) returns (j: nat)
    requires Distinct(s) && i < |s| && s[i] != id
    ensures j < |Except(s, id)| && Except(s, id)[j] == s[i]
    ensures Elements(Except(s, id)[j + 1..]) == Elements(s[i + 1..]) - {id}
  {
    hide Except;
    var before, after := s[..i], s[i + 1..];
    assert s == before + [s[i]] + after;
    ExceptConcat(before + [s[i]], after, id);
    ExceptConcat(before, [s[i]], id);
    ExceptElements([s[i]], id);
    SuffixDistinct(s, i + 1);
    ExceptElements(after, id);
    j := |Except(before, id)|;
    assert Except(s, id)[j + 1..] == Except(after, id);
  }

  lemma {:induction false} TailIsMarkedSince(history: seq<Hash>, i: nat)
    requires i < |ByLastMark(history)|
    ensures Elements(ByLastMark(history)[i + 1..]) == MarkedSince(history, ByLastMark(history)[i])
    decreases |history|
  {
    hide Except, Distinct;
    var front, x := history[..|history| - 1], history[|history| - 1];
    var s := ByLastMark(front);
    ByLastMarkElements(front);
    ByLastMarkElements(history);
    ExceptElements(s, x);
    var all := ByLastMark(history);
    if i < |all| - 1 {
      var y := all[i];
      assert y in Except(s, x);
      var k :| 0 <= k < |s| && s[k] == y;
      TailIsMarkedSince(front, k);
      var j := ExceptTail(s, k, x);
      assert all[j] == y;
      SameIndex(all, i, j);
      ElementsSnoc(Except(s, x)[j + 1..], x);
      assert all[i + 1..] == Except(s, x)[j + 1..] + [x];
    }
  }

  lemma ElementsSnoc(s: seq<Hash>, x: Hash)
    ensures Elements(s + [x]) == Elements(s) + {x}
  {
  }

  lemma SuffixDistinct(s: seq<Hash>, n: nat)
    requires Distinct(s) && n <= |s|
    ensures Distinct(s[n..])
  {
    assert forall k | 0 <= k < |s| - n :: s[n..][k] == s[n + k];
  }

  lemma SameIndex(s: seq<Hash>, i: nat, j: nat)
    requires Distinct(s) && i < |s| && j < |s| && s[i] == s[j]
    ensures i == j
  {
  }

  lemma {:induction false} CountDistinct(s: seq<Hash>)
    requires Distinct(s)
    ensures |Elements(s)| == |s|
  {
    if s != [] {
      var front := s[..|s| - 1];
      CountDistinct(front);
      assert Elements(s) == Elements(front) + {s[|s| - 1]};
    }
  }

  /** An id counts as seen exactly when it was marked and fewer than `max` different ids have
      been marked since. */
  lemma SeenExactly(history: seq<Hash>, max: nat, id: Hash)
    requires 1 <= max
    ensures id in Seen(history, max) <==> id in history && |MarkedSince(history, id)| < max
    ensures |Seen(history, max)| <= max
  {
    hide Seen, ByLastMark, MarkedSince, Distinct;
    SeenIsNewest(history, max);
    ByLastMarkElements(history);
    var all := ByLastMark(history);
    LastElements(all, max);
    if id in history {
      var i :| 0 <= i < |all| && all[i] == id;
      TailIsMarkedSince(history, i);
      SuffixDistinct(all, i + 1);
      CountDistinct(all[i + 1..]);
      InLast(all, max, i);
    }
  }

  lemma LastElements(s: seq<Hash>, n: nat)
    ensures |Last(s, n)| <= n && forall x | x in Last(s, n) :: x in s
  {
  }

  lemma InLast(s: seq<Hash>, n: nat, i: nat)
    requires Distinct(s) && i < |s|
    ensures s[i] in Last(s, n) <==> |s| - i <= n
  {
    var kept := Last(s, n);
    if |s| - i <= n {
      assert kept[|kept| - (|s| - i)] == s[i];
    }
    assert forall j | 0 <= j < |kept| :: kept[j] == s[|s| - |kept| + j];
  }

  // ---- flooding --------------------------------------------------------------------------

  // Who has an open stream to whom.
  type Network = map<NodeId, set<NodeId>>

  ghost predicate Closed(net: Network) {
    forall n, m | n in net && m in net[n] :: m in net
  }

  // One message on its way: who has relayed it (in order), who has handled it, the ids that each
  // node has marked, and the copies that are on the wire.
  datatype Flood = Flood(relays: seq<NodeId>, handled: set<NodeId>, marks: map<NodeId, seq<Hash>>,
                         wire: multiset<(NodeId, NodeId)>, sent: nat)

  function Copies(net: Network, n: NodeId, skip: set<NodeId>): set<(NodeId, NodeId)>
    requires n in net
  {
    set m | m in net[n] && m !in skip :: (n, m)
  }

  // The first broadcast marks the id and goes to every stream.
  function Begin(net: Network, origin: NodeId, id: Hash): Flood
    requires origin in net
  {
    var out := Copies(net, origin, {});
    Flood([origin], {origin}, map n | n in net :: if n == origin then [id] else [], multiset(out), |out|)
  }

  // What happens while a message is on its way: a copy of it arrives and the handler judges it, or
  // a node marks some other message.
  datatype Event = Arrival(a: NodeId, b: NodeId, verdict: Option<Status>) | Other(n: NodeId, other: Hash)

  // A copy arrives: a node that has seen the id drops it; another handles it, marks it unless it
  // rejects it, and relays it to all but its sender if it found it valid.
  function Deliver(net: Network, id: Hash, max: nat, f: Flood, a: NodeId, b: NodeId, verdict: Option<Status>): Flood
    requires b in net && b in f.marks
  {
    var rest := f.(wire := f.wire - multiset{(a, b)});
    if id in Seen(f.marks[b], max) then rest else
    var handled := rest.(handled := f.handled + {b});
    if Rejects(verdict) then handled else
    var marked := handled.(marks := f.marks[b := f.marks[b] + [id]]);
    if verdict == None then marked else
    var out := Copies(net, b, {a});
    marked.(relays := f.relays + [b], wire := rest.wire + multiset(out), sent := f.sent + |out|)
  }

  /** What a broadcast does: it marks the id, and a copy goes to every stream. */
  lemma BroadcastExactly(net: Network, id: Hash, b: NodeId, x: NodeId, y: NodeId)
    requires b in net
    ensures var f := Begin(net, b, id);
            && f.wire[(x, y)] == (if x == b && y in net[b] then 1 else 0)
            && f.marks.Keys == net.Keys && f.marks[b] == [id] && f.relays == [b]
  {
    hide Copies;
    CopyIn(net, b, {}, x, y);
  }

  /** What an arrival does: the copy is gone; a node that had seen the id does nothing more; another
      handles it, marks it unless it is rejected, and if it is valid sends copies to all its streams
      but the sender's. */
  lemma ArrivalExactly(net: Network, id: Hash, max: nat, f: Flood, a: NodeId, b: NodeId, verdict: Option<Status>,
                       x: NodeId, y: NodeId)
    requires b in net && b in f.marks
    ensures var g := Deliver(net, id, max, f, a, b, verdict);
            var rest := f.wire - multiset{(a, b)};
            if id in Seen(f.marks[b], max) then g == f.(wire := rest)
            else if verdict != None && verdict != Some(VALID) then g == f.(wire := rest, handled := f.handled + {b})
            else
              && g.marks == f.marks[b := f.marks[b] + [id]] && g.handled == f.handled + {b}
              && (if verdict == None then g.wire == rest && g.relays == f.relays else
                    && g.relays == f.relays + [b]
                    && g.wire[(x, y)] == rest[(x, y)] + if x == b && y in net[b] && y != a then 1 else 0)
  {
    hide Seen, Copies;
    CopyIn(net, b, {a}, x, y);
  }

  lemma CopyIn(net: Network, n: NodeId, skip: set<NodeId>, x: NodeId, y: NodeId)
    requires n in net
    ensures (x, y) in Copies(net, n, skip) <==> x == n && y in net[n] && y !in skip
  {
  }

  function Happen(net: Network, id: Hash, max: nat, f: Flood, e: Event): Flood
    requires Can(net, id, f, e)
  {
    match e
    case Arrival(a, b, verdict) => Deliver(net, id, max, f, a, b, verdict)
    case Other(n, other) => f.(marks := f.marks[n := f.marks[n] + [other]])
  }

  predicate Can(net: Network, id: Hash, f: Flood, e: Event) {
    match e
    case Arrival(a, b, _) => b in net && b in f.marks && (a, b) in f.wire
    case Other(n, other) => n in f.marks && other != id
  }

  // A schedule of events; each copy that arrives is on the wire, and verdicts are arbitrary.
  ghost predicate Possible(net: Network, origin: NodeId, id: Hash, max: nat, run: seq<Event>)
    requires origin in net
    decreases |run|, 0
  {
    if run == [] then true else
    var n := |run| - 1;
    Possible(net, origin, id, max, run[..n]) && Can(net, id, After(net, origin, id, max, run[..n]), run[n])
  }

  ghost function After(net: Network, origin: NodeId, id: Hash, max: nat, run: seq<Event>): Flood
    requires origin in net && Possible(net, origin, id, max, run)
    decreases |run|, 1
  {
    if run == [] then Begin(net, origin, id) else
    var n := |run| - 1;
    Happen(net, id, max, After(net, origin, id, max, run[..n]), run[n])
  }

  // Nobody has marked so many other ids since that the id has been evicted.
  ghost predicate Remembered(id: Hash, max: nat, f: Flood) {
    forall n | n in f.marks && id in f.marks[n] :: |MarkedSince(f.marks[n], id)| < max
  }

  /** At no moment of the run has any node evicted the id. */
  ghost predicate NothingEvicted(net: Network, origin: NodeId, id: Hash, max: nat, run: seq<Event>)
    requires origin in net && Possible(net, origin, id, max, run)
    decreases |run|
  {
    && Remembered(id, max, After(net, origin, id, max, run))
    && (run == [] || NothingEvicted(net, origin, id, max, run[..|run| - 1]))
  }

  function Arrivals(run: seq<Event>): nat {
    if run == [] then 0 else Arrivals(run[..|run| - 1]) + if run[|run| - 1].Arrival? then 1 else 0
  }

  function Degrees(net: Network, nodes: seq<NodeId>): nat
    requires forall n | n in nodes :: n in net
  {
    if nodes == [] then 0 else
    var n := nodes[|nodes| - 1];
    assert n in nodes;
    Degrees(net, nodes[..|nodes| - 1]) + |net[n]|
  }

  /** What holds at every moment of a flood: nobody relays twice, relayers have marked the id, the
      copies sent are bounded by the relayers' degrees, every copy was delivered or is on the wire,
      and a relayer's stream partner has handled the id or is about to. */
  ghost predicate FloodInv(net: Network, id: Hash, f: Flood, delivered: nat) {
    && f.marks.Keys == net.Keys
    && Distinct(f.relays) && (forall n | n in f.relays :: n in net && n in f.handled && id in f.marks[n])
    && (forall n | n in net && id in f.marks[n] :: n in f.handled)
    && f.sent <= Degrees(net, f.relays)
    && delivered + |f.wire| == f.sent
    && (forall a, b | (a, b) in f.wire :: a in f.relays && a in net && b in net[a])
    && (forall n, m | n in f.relays && m in net[n] :: m in f.handled || (n, m) in f.wire)
  }

  lemma {:induction false} CopiesBound(net: Network, n: NodeId, skip: set<NodeId>)
    requires n in net
    ensures |Copies(net, n, skip)| <= |net[n]|
  {
    var targets := set m | m in net[n] && m !in skip;
    PairUp(n, targets);
    assert Copies(net, n, skip) == set m | m in targets :: (n, m);
    SubsetSize(targets, net[n]);
  }

  lemma {:induction false} PairUp(n: NodeId, targets: set<NodeId>)
    ensures |set m | m in targets :: (n, m)| == |targets|
    decreases |targets|
  {
    if |targets| > 0 {
      var x :| x in targets;
      PairUp(n, targets - {x});
      var fewer := set m | m in targets - {x} :: (n, m);
      assert (set m | m in targets :: (n, m)) == fewer + {(n, x)};
      assert (n, x) !in fewer;
    }
  }

  lemma {:induction false} SubsetSize(s: set<NodeId>, t: set<NodeId>)
    requires s <= t
    ensures |s| <= |t|
    decreases |s|
  {
    if |s| > 0 {
      var x :| x in s;
      SubsetSize(s - {x}, t - {x});
    }
  }

  lemma BeginInv(net: Network, origin: NodeId, id: Hash)
    requires origin in net
    ensures FloodInv(net, id, Begin(net, origin, id), 0)
  {
    var f := Begin(net, origin, id);
    CopiesBound(net, origin, {});
    assert f.relays[..0] == [];
    forall m | m in net[origin] ensures (origin, m) in f.wire {
      assert (origin, m) in Copies(net, origin, {});
    }
  }

  lemma DropInv(net: Network, id: Hash, f: Flood, a: NodeId, b: NodeId, delivered: nat)
    requires FloodInv(net, id, f, delivered) && (a, b) in f.wire && b in f.handled
    ensures FloodInv(net, id, f.(wire := f.wire - multiset{(a, b)}), delivered + 1)
  {
    hide Degrees;
    var g := f.(wire := f.wire - multiset{(a, b)});
    forall n, m | n in g.relays && m in net[n] ensures m in g.handled || (n, m) in g.wire {
      if m !in f.handled { assert (n, m) in f.wire; }
    }
  }

  lemma RelayInv(net: Network, id: Hash, f: Flood, a: NodeId, b: NodeId, delivered: nat)
    requires FloodInv(net, id, f, delivered)
    requires b in net && b !in f.relays && b in f.handled && id in f.marks[b] && (a == b || a in f.handled)
    ensures var out := Copies(net, b, {a});
            FloodInv(net, id, f.(relays := f.relays + [b], wire := f.wire + multiset(out), sent := f.sent + |out|),
                     delivered)
  {
    var out := Copies(net, b, {a});
    var g := f.(relays := f.relays + [b], wire := f.wire + multiset(out), sent := f.sent + |out|);
    CopiesBound(net, b, {a});
    assert g.relays[..|f.relays|] == f.relays;
    forall m | m in net[b] ensures m in g.handled || (b, m) in g.wire {
      if m != a { assert (b, m) in out; }
    }
  }

  lemma DeliverInv(net: Network, id: Hash, max: nat, f: Flood, a: NodeId, b: NodeId, verdict: Option<Status>,
                   delivered: nat)
    requires 1 <= max && FloodInv(net, id, f, delivered) && Remembered(id, max, f)
    requires (a, b) in f.wire && b in net
    ensures FloodInv(net, id, Deliver(net, id, max, f, a, b, verdict), delivered + 1)
  {
    hide FloodInv, Seen, MarkedSince, Copies;
    Marked(net, id, f, delivered, a, b);
    SeenExactly(f.marks[b], max, id);
    var handled := f.(handled := f.handled + {b});
    HandledInv(net, id, f, b, delivered);
    DropInv(net, id, handled, a, b, delivered);
    var rest := handled.(wire := f.wire - multiset{(a, b)});
    if id in Seen(f.marks[b], max) {
      assert handled == f;
    } else if !Rejects(verdict) {
      var marked := rest.(marks := f.marks[b := f.marks[b] + [id]]);
      MarkInv(net, id, rest, b, id, delivered + 1);
      if verdict.Some? {
        RelayInv(net, id, marked, a, b, delivered + 1);
      }
    }
  }

  // What is needed of the invariant about one copy.
  lemma Marked(net: Network, id: Hash, f: Flood, delivered: nat, a: NodeId, b: NodeId)
    requires FloodInv(net, id, f, delivered) && (a, b) in f.wire && b in net
    ensures b in f.marks && a in f.handled
    ensures id in f.marks[b] ==> f.handled + {b} == f.handled
    ensures id !in f.marks[b] ==> b !in f.relays
  {
  }

  lemma HandledInv(net: Network, id: Hash, f: Flood, b: NodeId, delivered: nat)
    requires FloodInv(net, id, f, delivered)
    ensures FloodInv(net, id, f.(handled := f.handled + {b}), delivered)
  {
    hide Degrees;
  }

  lemma MarkInv(net: Network, id: Hash, f: Flood, n: NodeId, other: Hash, delivered: nat)
    requires FloodInv(net, id, f, delivered) && n in net && (other == id ==> n in f.handled)
    ensures FloodInv(net, id, f.(marks := f.marks[n := f.marks[n] + [other]]), delivered)
  {
    hide Degrees;
    assert id in f.marks[n] ==> id in f.marks[n] + [other];
  }

  lemma {:induction false} FloodInvariant(net: Network, origin: NodeId, id: Hash, max: nat, run: seq<Event>)
    requires 1 <= max && origin in net && Possible(net, origin, id, max, run) &&
             NothingEvicted(net, origin, id, max, run)
    ensures FloodInv(net, id, After(net, origin, id, max, run), Arrivals(run))
    decreases |run|
  {
    hide FloodInv, Deliver, Remembered;
    if run == [] {
      BeginInv(net, origin, id);
    } else {
      var n := |run| - 1;
      FloodInvariant(net, origin, id, max, run[..n]);
      StillRemembered(net, origin, id, max, run[..n]);
      var f := After(net, origin, id, max, run[..n]);
      match run[n]
      case Arrival(a, b, verdict) => DeliverInv(net, id, max, f, a, b, verdict, Arrivals(run[..n]));
      case Other(m, other) =>
        SameNodes(net, id, f, Arrivals(run[..n]));
        MarkInv(net, id, f, m, other, Arrivals(run[..n]));
    }
  }

  lemma SameNodes(net: Network, id: Hash, f: Flood, delivered: nat)
    requires FloodInv(net, id, f, delivered)
    ensures f.marks.Keys == net.Keys
  {
  }

  lemma StillRemembered(net: Network, origin: NodeId, id: Hash, max: nat, run: seq<Event>)
    requires origin in net && Possible(net, origin, id, max, run) && NothingEvicted(net, origin, id, max, run)
    ensures Remembered(id, max, After(net, origin, id, max, run))
  {
  }

  // All nodes, once each.
  ghost function Everyone(nodes: set<NodeId>): (all: seq<NodeId>)
    ensures Distinct(all) && forall n :: n in all <==> n in nodes
    decreases |nodes|
  {
    if |nodes| == 0 then [] else
    var n :| n in nodes;
    Everyone(nodes - {n}) + [n]
  }

  lemma {:induction false} DegreesExcept(net: Network, all: seq<NodeId>, n: NodeId)
    requires Distinct(all) && n in all && forall m | m in all :: m in net
    ensures (forall m | m in Except(all, n) :: m in net) && Degrees(net, all) == Degrees(net, Except(all, n)) + |net[n]|
    decreases |all|
  {
    ExceptElements(all, n);
    var front, x := all[..|all| - 1], all[|all| - 1];
    if x == n {
      assert n !in front;
      ExceptElements(front, n);
    } else {
      assert all == front + [x];
      DegreesExcept(net, front, n);
      var rest := Except(all, n);
      assert rest[..|rest| - 1] == Except(front, n);
    }
  }

  lemma {:induction false} DegreesMonotone(net: Network, some: seq<NodeId>, all: seq<NodeId>)
    requires Distinct(some) && Distinct(all) && (forall n | n in all :: n in net) && forall n | n in some :: n in all
    ensures Degrees(net, some) <= Degrees(net, all)
    decreases |some|
  {
    if some != [] {
      var front, n := some[..|some| - 1], some[|some| - 1];
      DegreesExcept(net, all, n);
      ExceptElements(all, n);
      forall m | m in front ensures m in Except(all, n) {
        var i :| 0 <= i < |front| && front[i] == m;
        assert some[i] == m;
      }
      DegreesMonotone(net, front, Except(all, n));
    }
  }

  /** Flooding ends: while no node evicts the id, however arrivals are ordered and judged and
      whatever else is marked in between, no node relays it twice, and there are never more
      arrivals, nor copies sent, than the degrees of all nodes add up to. */
  lemma FloodEnds(net: Network, origin: NodeId, id: Hash, max: nat, run: seq<Event>)
    requires 1 <= max && origin in net && Possible(net, origin, id, max, run) &&
             NothingEvicted(net, origin, id, max, run)
    ensures var f := After(net, origin, id, max, run);
            Distinct(f.relays) && Arrivals(run) <= f.sent <= Degrees(net, Everyone(net.Keys))
  {
    FloodInvariant(net, origin, id, max, run);
    DegreesMonotone(net, After(net, origin, id, max, run).relays, Everyone(net.Keys));
  }

  // One more event after a run.
  lemma OneMore(net: Network, origin: NodeId, id: Hash, max: nat, run: seq<Event>, e: Event)
    requires origin in net && Possible(net, origin, id, max, run) && NothingEvicted(net, origin, id, max, run)
    requires Can(net, id, After(net, origin, id, max, run), e)
    requires Remembered(id, max, Happen(net, id, max, After(net, origin, id, max, run), e))
    ensures Possible(net, origin, id, max, run + [e]) && NothingEvicted(net, origin, id, max, run + [e])
    ensures Arrivals(run + [e]) == Arrivals(run) + if e.Arrival? then 1 else 0
  {
    hide Remembered, Happen, Can;
    assert (run + [e])[..|run|] == run;
  }

  // Judging a copy evicts nothing.
  lemma DeliverRemembers(net: Network, id: Hash, max: nat, f: Flood, a: NodeId, b: NodeId, verdict: Option<Status>)
    requires 1 <= max && b in net && b in f.marks && Remembered(id, max, f)
    ensures Remembered(id, max, Deliver(net, id, max, f, a, b, verdict))
  {
    hide Seen, MarkedSince, Copies;
    MarkedNow(f.marks[b], id);
  }

  // While something is on the wire the run can go on, and judging it evicts nothing.
  lemma FloodGoesOn(net: Network, origin: NodeId, id: Hash, max: nat, run: seq<Event>, judge: NodeId -> Option<Status>)
    returns (next: Event)
    requires 1 <= max && origin in net && Closed(net)
    requires Possible(net, origin, id, max, run) && NothingEvicted(net, origin, id, max, run)
    requires After(net, origin, id, max, run).wire != multiset{}
    ensures next.Arrival? && next.verdict == judge(next.b)
    ensures Possible(net, origin, id, max, run + [next]) && NothingEvicted(net, origin, id, max, run + [next])
    ensures Arrivals(run + [next]) == Arrivals(run) + 1
  {
    hide Degrees, Deliver, Remembered, After, Possible, NothingEvicted, Arrivals, Distinct;
    FloodInvariant(net, origin, id, max, run);
    StillRemembered(net, origin, id, max, run);
    var f := After(net, origin, id, max, run);
    var copy :| copy in f.wire;
    next := Arrival(copy.0, copy.1, judge(copy.1));
    DeliverRemembers(net, id, max, f, next.a, next.b, next.verdict);
    OneMore(net, origin, id, max, run, next);
  }

  lemma MarkedNow(history: seq<Hash>, id: Hash)
    ensures MarkedSince(history + [id], id) == {}
  {
  }

  /** Every flood can come to rest: a run goes on, with the verdicts its nodes give, until nothing
      is left on the wire. */
  lemma {:induction false} FloodRests(net: Network, origin: NodeId, id: Hash, max: nat, run: seq<Event>,
                                      judge: NodeId -> Option<Status>)
    returns (rest: seq<Event>)
    requires 1 <= max && origin in net && Closed(net)
    requires Possible(net, origin, id, max, run) && NothingEvicted(net, origin, id, max, run)
    ensures forall e | e in rest :: e.Arrival? && e.verdict == judge(e.b)
    ensures Possible(net, origin, id, max, run + rest) && NothingEvicted(net, origin, id, max, run + rest)
    ensures After(net, origin, id, max, run + rest).wire == multiset{}
    decreases Degrees(net, Everyone(net.Keys)) - Arrivals(run)
  {
    hide Degrees, Everyone, After, Possible, NothingEvicted, Arrivals;
    if After(net, origin, id, max, run).wire == multiset{} {
      rest := [];
      assert run + rest == run;
    } else {
      FloodEnds(net, origin, id, max, run);
      var next := FloodGoesOn(net, origin, id, max, run, judge);
      FloodEnds(net, origin, id, max, run + [next]);
      var more := FloodRests(net, origin, id, max, run + [next], judge);
      rest := [next] + more;
      assert run + rest == run + [next] + more;
    }
  }

  /** At rest every stream partner of a relaying node has handled the message. */
  lemma FloodCovers(net: Network, origin: NodeId, id: Hash, max: nat, run: seq<Event>, n: NodeId, m: NodeId)
    requires 1 <= max && origin in net && Possible(net, origin, id, max, run) &&
             NothingEvicted(net, origin, id, max, run)
    requires var f := After(net, origin, id, max, run);
             f.wire == multiset{} && n in f.relays && n in net && m in net[n]
    ensures m in After(net, origin, id, max, run).handled
  {
    hide After, Possible, NothingEvicted, Degrees;
    FloodInvariant(net, origin, id, max, run);
  }

  ghost predicate Edge(net: Network, n: NodeId, m: NodeId) {
    n in net && m in net[n]
  }

  ghost predicate IsPath(net: Network, path: seq<NodeId>) {
    path != [] &&
    (|path| == 1 || (IsPath(net, path[..|path| - 1]) && Edge(net, path[|path| - 2], path[|path| - 1])))
  }

  ghost predicate AllValid(run: seq<Event>) {
    forall e | e in run && e.Arrival? :: e.verdict == Some(VALID)
  }

  lemma {:induction false} AllValidRelay(net: Network, origin: NodeId, id: Hash, max: nat, run: seq<Event>)
    requires origin in net && Possible(net, origin, id, max, run) && AllValid(run)
    ensures forall n :: n in After(net, origin, id, max, run).handled <==> n in After(net, origin, id, max, run).relays
    decreases |run|
  {
    hide Seen, Copies;
    if run != [] {
      var front := run[..|run| - 1];
      assert forall e | e in front :: e in run;
      AllValidRelay(net, origin, id, max, front);
    }
  }

  /** If nobody rejects the message, a flood at rest has been relayed by everyone a path leads to. */
  lemma {:induction false} FloodReaches(net: Network, origin: NodeId, id: Hash, max: nat, run: seq<Event>,
                                        path: seq<NodeId>)
    requires 1 <= max && origin in net && Possible(net, origin, id, max, run) &&
             NothingEvicted(net, origin, id, max, run)
    requires AllValid(run) && After(net, origin, id, max, run).wire == multiset{}
    requires IsPath(net, path) && path[0] == origin
    ensures path[|path| - 1] in After(net, origin, id, max, run).relays
    decreases |path|
  {
    hide After, Possible, NothingEvicted, AllValid;
    AllValidRelay(net, origin, id, max, run);
    OriginRelays(net, origin, id, max, run);
    if 1 < |path| {
      var front := path[..|path| - 1];
      FloodReaches(net, origin, id, max, run, front);
      FloodCovers(net, origin, id, max, run, path[|path| - 2], path[|path| - 1]);
    }
  }

  lemma {:induction false} OriginRelays(net: Network, origin: NodeId, id: Hash, max: nat, run: seq<Event>)
    requires origin in net && Possible(net, origin, id, max, run)
    ensures origin in After(net, origin, id, max, run).relays
    decreases |run|
  {
    hide Seen, Copies;
    if run != [] {
      OriginRelays(net, origin, id, max, run[..|run| - 1]);
    }
  }
}
