/** Cumulative work and difficulty control along runs. */
module WorkLaws {
  import opened Prelude
  import opened AccountMaps
  import opened Transition
  import opened Merkle
  import opened Chain
  import opened Replays
  import opened Uniqueness
  import opened NodeRuns

  // ---- work ------------------------------------------------------------------------------

  lemma WorkOfAppend(chain: seq<Block>, b: Block)
    ensures TotalWork(chain + [b]) == TotalWork(chain) + BlockWork(b)
  {
    assert (chain + [b])[..|chain|] == chain;
  }

  lemma BlockWorkPositive(b: Block)
    requires 0 < b.target <= MAX_TARGET
    ensures 1 <= BlockWork(b)
  {
  }

  /** The work of a block is the whole number of times its target goes into 2^256. */
  lemma WorkIsQuotient(b: Block)
    requires 0 < b.target
    ensures b.target * BlockWork(b) <= 0x1_0000000000000000000000000000000000000000000000000000000000000000
    ensures 0x1_0000000000000000000000000000000000000000000000000000000000000000 < b.target * (BlockWork(b) + 1)
  {
    var q, r := TWO_256 / b.target, TWO_256 % b.target;
    assert b.target * q + r == TWO_256;
    assert b.target * (q + 1) == b.target * q + b.target;
  }

  /** Work adds up: a chain's is its parts'. */
  lemma {:induction false} WorkAdds(c: seq<Block>, d: seq<Block>)
    ensures TotalWork([]) == 0 && TotalWork(c + d) == TotalWork(c) + TotalWork(d)
    decreases |d|
  {
    if d == [] {
      assert c + d == c;
    } else {
      assert (c + d)[..|c + d| - 1] == c + d[..|d| - 1];
      WorkAdds(c, d[..|d| - 1]);
    }
  }

  // q is how often each block's target goes into 2^256.
  ghost predicate Quotients(blocks: seq<Block>, q: seq<int>) {
    |q| == |blocks| && forall i | 0 <= i < |q| ::
      && 0 < blocks[i].target
      && blocks[i].target * q[i] <= 0x1_0000000000000000000000000000000000000000000000000000000000000000
                                 < blocks[i].target * (q[i] + 1)
  }

  function Sum(q: seq<int>): int {
    if q == [] then 0 else Sum(q[..|q| - 1]) + q[|q| - 1]
  }

  lemma {:induction false} WorkIsSum(blocks: seq<Block>, q: seq<int>)
    requires Quotients(blocks, q)
    ensures TotalWork(blocks) == Sum(q)
    decreases |q|
  {
    if q != [] {
      var n := |q| - 1;
      WorkIsSum(blocks[..n], q[..n]);
      WorkIsQuotient(blocks[n]);
      OneQuotient(blocks[n].target, q[n], BlockWork(blocks[n]));
    }
  }

  lemma OneQuotient(t: int, a: int, b: int)
    requires 0 < t && t * a <= TWO_256 < t * (a + 1) && t * b <= TWO_256 < t * (b + 1)
    ensures a == b
  {
    if a < b { Products(t, a + 1, b); }
    if b < a { Products(t, b + 1, a); }
  }

  /** Fork choice goes by targets, not by length: a proposal that takes over from block `fork` is
      adopted only if 2^256 divided by its blocks' targets adds up to more than the same sum over
      the held blocks that it would replace, however many blocks either side has. */
  lemma HeavierByTargets(P: Params, nd: Node, proposal: seq<Block>, now: int, fork: nat, held: seq<int>,
                         offered: seq<int>)
    requires nd.chain != [] && proposal != [] && proposal[0].index == fork <= |nd.chain|
    requires Quotients(nd.chain[fork..], held) && Quotients(proposal, offered)
    ensures Resolve(P, nd, proposal, now).ok ==> Sum(held) < Sum(offered)
  {
    hide TotalWork, Rebuild, Orphans, MeetsTarget, Quotients;
    assert nd.chain == nd.chain[..fork] + nd.chain[fork..];
    WorkAdds(nd.chain[..fork], nd.chain[fork..]);
    WorkAdds(nd.chain[..fork], proposal);
    WorkIsSum(nd.chain[fork..], held);
    WorkIsSum(proposal, offered);
  }

  /** Longer can be lighter: however many blocks of target t are proposed, they are refused when
      the fewer held ones weigh as much. */
  lemma LongerButLighter(P: Params, nd: Node, proposal: seq<Block>, now: int, fork: nat, held: seq<int>, t: int, q: int)
    requires nd.chain != [] && proposal != [] && proposal[0].index == fork <= |nd.chain|
    requires 0 < t && t * q <= 0x1_0000000000000000000000000000000000000000000000000000000000000000 < t * (q + 1)
    requires forall i | 0 <= i < |proposal| :: proposal[i].target == t
    requires Quotients(nd.chain[fork..], held) && |proposal| * q <= Sum(held)
    ensures !Resolve(P, nd, proposal, now).ok
  {
    hide Resolve;
    var offered := seq(|proposal|, _ => q);
    SumOfEqual(offered, q);
    HeavierByTargets(P, nd, proposal, now, fork, held, offered);
  }

  /** When a reorganisation goes through, in the proposal's and the held blocks' own fields: it
      links to the held chain, or shares its genesis hash; each block meets its own target; the
      offered blocks weigh more than those replaced; and the completed chain replays validly. */
  lemma ReorgVerdict(P: Params, nd: Node, proposal: seq<Block>, now: int, fork: nat, held: seq<int>, offered: seq<int>)
    requires Ideal(P) && Inv(P, nd, now) && proposal != [] && proposal[0].index == fork <= |nd.chain|
    requires Quotients(nd.chain[fork..], held) && Quotients(proposal, offered)
    ensures Resolve(P, nd, proposal, now).ok <==>
            && (fork == 0 ==> proposal[0].hash == nd.chain[0].hash)
            && (0 < fork ==> proposal[0].previousHash == nd.chain[fork - 1].hash)
            && (forall i | 0 <= i < |proposal| :: proposal[i].hash < proposal[i].target < TWO_256)
            && Sum(held) < Sum(offered)
            && Genuine(P, nd.chain[..fork] + proposal, now)
  {
    hide TotalWork, Rebuild, Orphans, Quotients, Replay;
    ReorgAcceptsGenuine(P, nd, proposal, now);
    assert nd.chain == nd.chain[..fork] + nd.chain[fork..];
    WorkAdds(nd.chain[..fork], nd.chain[fork..]);
    WorkAdds(nd.chain[..fork], proposal);
    WorkIsSum(nd.chain[fork..], held);
    WorkIsSum(proposal, offered);
    PositiveTargets(proposal, offered);
  }

  lemma PositiveTargets(blocks: seq<Block>, q: seq<int>)
    requires Quotients(blocks, q)
    ensures forall i | 0 <= i < |blocks| :: 0 < blocks[i].target
  {
  }

  /** An empty proposal, one that starts beyond the held chain, and one with a target that is not
      positive are always refused. */
  lemma ReorgRefused(P: Params, nd: Node, proposal: seq<Block>, now: int)
    requires nd.chain != []
    requires proposal == [] || |nd.chain| < proposal[0].index
          || exists i :: 0 <= i < |proposal| && proposal[i].target <= 0
    ensures Resolve(P, nd, proposal, now) == Resolution(false, [], nd)
  {
    hide TotalWork, Rebuild, Orphans;
  }

  lemma {:induction false} SumOfEqual(s: seq<int>, q: int)
    requires forall i | 0 <= i < |s| :: s[i] == q
    ensures Sum(s) == |s| * q
  {
    if s != [] { SumOfEqual(s[..|s| - 1], q); }
  }

  /** Whatever changes the held chain makes it strictly heavier. */
  lemma ChangeAddsWork(P: Params, nd: Node, op: Op)
    requires nd.chain != []
    ensures var chain := Do(P, nd, op).chain;
            chain == nd.chain || TotalWork(nd.chain) < TotalWork(chain)
  {
    hide ApplyTxs, TotalWork, Rebuild, Orphans;
    match op
    case Append(b, now) =>
      WorkOfAppend(nd.chain, b);
      if 0 < b.target <= MAX_TARGET { BlockWorkPositive(b); }
    case Reorganise(proposal, now) =>
    case Check(_, _) =>
  }

  lemma {:induction false} WorkMonotone(P: Params, ops: seq<Op>, i: nat)
    requires i <= |ops|
    ensures var (early, late) := (Run(P, ops[..i]).chain, Run(P, ops).chain);
            late == early || TotalWork(early) < TotalWork(late)
    decreases |ops|
  {
    hide Run, Do, TotalWork;
    if i == |ops| {
      assert ops[..i] == ops;
    } else {
      var n := |ops| - 1;
      assert ops[..n][..i] == ops[..i];
      WorkMonotone(P, ops[..n], i);
      RunStep(P, ops);
      ChangeAddsWork(P, Run(P, ops[..n]), ops[n]);
    }
  }

  lemma RunStep(P: Params, ops: seq<Op>)
    requires ops != []
    ensures Run(P, ops) == Do(P, Run(P, ops[..|ops| - 1]), ops[|ops| - 1])
  {
  }

  /** No chain is ever held again once the node has moved off it. */
  lemma NeverHeldAgain(P: Params, ops: seq<Op>, i: nat, j: nat)
    requires i <= j <= |ops| && Run(P, ops[..j]).chain != Run(P, ops[..i]).chain
    ensures Run(P, ops).chain != Run(P, ops[..i]).chain
  {
    hide Run, TotalWork;
    assert ops[..j][..i] == ops[..i];
    WorkMonotone(P, ops[..j], i);
    WorkMonotone(P, ops, j);
  }

  // ---- targets ---------------------------------------------------------------------------

  lemma ValidStep(P: Params, prev: Block, b: Block, m: Accounts, target: int, avg: real, now: int)
    requires ApplyBlock(P, prev, b, m, target, avg, now).status == VALID
    ensures b.target == target && 1 <= b.target <= MAX_TARGET && prev.timestamp < b.timestamp
    ensures 1 <= ApplyBlock(P, prev, b, m, target, avg, now).target <= MAX_TARGET
  {
    hide ApplyTxs, Reward, Attests, NextAverage, HeaderOf;
  }

  /** Every block above genesis carries the target the control gave it, within bounds. */
  lemma {:induction false} TargetsInBounds(P: Params, chain: seq<Block>, n: nat, now: int)
    requires 1 <= n <= |chain| && Replay(P, chain, n, now).status == VALID && 1 <= chain[0].target <= MAX_TARGET
    ensures 1 <= Replay(P, chain, n, now).target <= MAX_TARGET
    ensures forall i | 1 <= i < n :: chain[i].target == FastForward(P, chain, i).0 && 1 <= chain[i].target <= MAX_TARGET
    decreases n
  {
    hide ApplyBlock;
    if 1 < n {
      TargetsInBounds(P, chain, n - 1, now);
      FastForwardIsReplay(P, chain, n - 1, now);
      var r := Replay(P, chain, n - 1, now);
      ValidStep(P, chain[n - 2], chain[n - 1], r.accounts, r.target, r.avg, now);
    }
  }

  // Time between consecutive blocks.
  function Gap(chain: seq<Block>, i: nat): int
    requires 1 <= i < |chain|
  {
    chain[i].timestamp - chain[i - 1].timestamp
  }

  lemma Scale(a: real, x: real, y: real) returns (ax: real, ay: real)
    requires 0.0 <= a && x <= y
    ensures ax == a * x && ay == a * y && ax <= ay
  {
    ax, ay := a * x, a * y;
    assert 0.0 <= a * (y - x);
  }

  // A weighted mean of two values in a range is in the range.
  lemma Mix(alpha: real, beta: real, x: real, y: real, lo: real, hi: real)
    requires 0.0 <= alpha && 0.0 <= beta && alpha + beta == 1.0 && lo <= x <= hi && lo <= y <= hi
    ensures lo <= alpha * x + beta * y <= hi
  {
    var a, a' := Scale(alpha, lo, x);
    var b, b' := Scale(beta, lo, y);
    assert a + b == (alpha + beta) * lo == lo;
    var a'', c := Scale(alpha, x, hi);
    var b'', d := Scale(beta, y, hi);
    assert c + d == (alpha + beta) * hi == hi;
  }

  /** The moving average stays between the extremes of the block gaps and the intended gap. */
  lemma {:induction false} AverageBetween(P: Params, chain: seq<Block>, n: nat, lo: int, hi: int)
    requires 1 <= n <= |chain| && 0.0 <= P.alpha <= 1.0
    requires lo <= P.targetBlockTime <= hi && forall i | 1 <= i < n :: lo <= Gap(chain, i) <= hi
    ensures lo as real <= FastForward(P, chain, n).1 <= hi as real
    decreases n
  {
    hide NextTarget;
    if 1 < n {
      AverageBetween(P, chain, n - 1, lo, hi);
      var avg := FastForward(P, chain, n - 1).1;
      Mix(P.alpha, 1.0 - P.alpha, Gap(chain, n - 1) as real, avg, lo as real, hi as real);
    }
  }

  lemma {:induction false} GapsPositive(P: Params, chain: seq<Block>, n: nat, now: int)
    requires 1 <= n <= |chain| && Replay(P, chain, n, now).status == VALID
    ensures forall i | 1 <= i < n :: 1 <= Gap(chain, i)
    decreases n
  {
    hide ApplyBlock;
    if 1 < n {
      GapsPositive(P, chain, n - 1, now);
      var r := Replay(P, chain, n - 1, now);
      ValidStep(P, chain[n - 2], chain[n - 1], r.accounts, r.target, r.avg, now);
    }
  }

  // An upper bound for the gaps.
  function Longest(chain: seq<Block>, n: nat, floor: int): (r: int)
    requires n <= |chain|
    ensures floor <= r && forall i | 1 <= i < n :: Gap(chain, i) <= r
  {
    if n <= 1 then floor else
    var r := Longest(chain, n - 1, floor);
    if r < Gap(chain, n - 1) then Gap(chain, n - 1) else r
  }

  /** On every reachable node the target is in bounds and, with a weight between 0 and 1, the
      average block time is at least one millisecond and between any bounds that hold the
      intended block time and every gap of the held chain. */
  lemma ControlTheorem(P: Params, ops: seq<Op>, begin: int, lo: int, hi: int)
    requires Ideal(P) && ValidGenesis(P) && InTime(ops, begin)
    ensures var nd := Run(P, ops);
            && 1 <= nd.target <= MAX_TARGET
            && (0.0 <= P.alpha <= 1.0 ==>
                 && 1.0 <= nd.avg
                 && (lo <= P.targetBlockTime <= hi && (forall i | 1 <= i < |nd.chain| :: lo <= Gap(nd.chain, i) <= hi)
                     ==> lo as real <= nd.avg <= hi as real))
  {
    hide Replay, Run;
    ReplayInvariant(P, ops, begin);
    var nd, now := Run(P, ops), ClockAfter(ops, begin);
    var n := |nd.chain|;
    TargetsInBounds(P, nd.chain, n, now);
    FastForwardIsReplay(P, nd.chain, n, now);
    GapsPositive(P, nd.chain, n, now);
    if 0.0 <= P.alpha <= 1.0 {
      AverageBetween(P, nd.chain, n, 1, Longest(nd.chain, n, P.targetBlockTime));
      if lo <= P.targetBlockTime <= hi && forall i | 1 <= i < n :: lo <= Gap(nd.chain, i) <= hi {
        AverageBetween(P, nd.chain, n, lo, hi);
      }
    }
  }

  lemma MixSame(alpha: real, x: real)
    ensures alpha * x + (1.0 - alpha) * x == x
  {
  }

  lemma SteadyTarget(target: int, time: Positive)
    requires 0 <= target
    ensures target * Truncate(time as real) / time == target
  {
    ExactTruncate(time);
    QuotientExact(target, time);
  }

  lemma SteadyStep(P: Params, prev: Block, b: Block, target: int)
    requires 1 <= target <= MAX_TARGET && b.timestamp - prev.timestamp == P.targetBlockTime
    ensures NextAverage(P, prev, b, P.targetBlockTime as real) == P.targetBlockTime as real
    ensures NextTarget(P, target, P.targetBlockTime as real) == target
  {
    hide Truncate;
    MixSame(P.alpha, P.targetBlockTime as real);
    SteadyTarget(target, P.targetBlockTime);
  }

  /** Blocks exactly on schedule leave the target where it is. */
  lemma {:induction false} OnScheduleTargetStays(P: Params, chain: seq<Block>, n: nat)
    requires 1 <= n <= |chain| && 1 <= chain[0].target <= MAX_TARGET
    requires forall i | 1 <= i < n :: Gap(chain, i) == P.targetBlockTime
    ensures FastForward(P, chain, n) == (chain[0].target, P.targetBlockTime as real)
    decreases n
  {
    hide NextTarget, NextAverage;
    if 1 < n {
      OnScheduleTargetStays(P, chain, n - 1);
      assert Gap(chain, n - 1) == P.targetBlockTime;
      SteadyStep(P, chain[n - 2], chain[n - 1], chain[0].target);
    }
  }

  /** A reachable node whose blocks all came on schedule asks for the target of its first block,
      which is the genesis target when all proposals came through the parser. */
  lemma SteadyTheorem(P: Params, ops: seq<Op>, begin: int)
    requires Ideal(P) && ValidGenesis(P) && InTime(ops, begin)
    requires var chain := Run(P, ops).chain; forall i | 1 <= i < |chain| :: Gap(chain, i) == P.targetBlockTime
    ensures var nd := Run(P, ops);
            && nd.target == nd.chain[0].target && nd.avg == P.targetBlockTime as real
            && (AllParsed(P, ops) ==> nd.target == P.genesisTarget)
  {
    hide Replay, Run, AllParsed;
    if AllParsed(P, ops) { GenesisKept(P, ops); }
    ReplayInvariant(P, ops, begin);
    var nd := Run(P, ops);
    FastForwardIsReplay(P, nd.chain, |nd.chain|, ClockAfter(ops, begin));
    OnScheduleTargetStays(P, nd.chain, |nd.chain|);
  }

  /** Difficulty control pushes the right way: when blocks come no faster than intended the target
      does not fall, when they come faster than intended by a whole millisecond it does not rise. */
  lemma TargetDirection(P: Params, target: int, avg: real)
    requires 1 <= target <= MAX_TARGET && 0.0 <= avg
    ensures P.targetBlockTime as real <= avg ==> target <= NextTarget(P, target, avg)
    ensures avg < P.targetBlockTime as real ==> NextTarget(P, target, avg) <= target
  {
    var t, time := Truncate(avg), P.targetBlockTime;
    if time as real <= avg {
      assert time <= t;
      QuotientAtLeast(target, t, time);
    } else {
      assert 0 <= t <= time;
      QuotientAtMost(target, t, time);
    }
  }

  /** The adjustment is proportional: when blocks take n times as long as intended, the next
      target is n times the target, up to the maximum. */
  lemma TargetProportional(P: Params, target: int, n: int)
    requires 1 <= target && 1 <= n
    ensures NextTarget(P, target, (n * P.targetBlockTime) as real) ==
            if target * n <= MAX_TARGET then target * n else MAX_TARGET
  {
    var time := P.targetBlockTime;
    ExactTruncate(n * time);
    Products(target, 1, n);
    QuotientExact(target * n, time);
    assert target * (n * time) == target * n * time;
  }

  /** The next target in whole numbers: with t the average without its fraction, it is how often
      the intended time goes into target * t, held between 1 and 2^256 - 1. */
  lemma TargetExactly(P: Params, target: int, avg: real, t: int, q: int)
    requires if 0.0 <= avg then t as real <= avg < (t + 1) as real else (t - 1) as real < avg <= t as real
    requires P.targetBlockTime * q <= target * t < P.targetBlockTime * (q + 1)
    ensures NextTarget(P, target, avg) == if q < 1 then 1 else if TWO_256 <= q then TWO_256 - 1 else q
  {
    WholePart(avg, t);
    var d, r := target * t / P.targetBlockTime, target * t % P.targetBlockTime;
    assert P.targetBlockTime * d + r == target * t;
    SameQuotient(P.targetBlockTime, target * t, q, d);
  }

  lemma WholePart(avg: real, t: int)
    requires if 0.0 <= avg then t as real <= avg < (t + 1) as real else (t - 1) as real < avg <= t as real
    ensures Truncate(avg) == t
  {
    if 0.0 <= avg { assert avg.Floor == t; } else { assert (-avg).Floor == -t; }
  }

  lemma SameQuotient(d: int, n: int, a: int, b: int)
    requires 0 < d && d * a <= n < d * (a + 1) && d * b <= n < d * b + d
    ensures a == b
  {
    if a < b { Products(d, a + 1, b); }
    if b < a { Products(d, b + 1, a); }
  }

  lemma ExactTruncate(n: int)
    ensures Truncate(n as real) == n
  {
  }

  lemma QuotientExact(a: int, d: Positive)
    requires 0 <= a
    ensures a * d / d == a
  {
    QuotientAtLeast(a, d, d);
    QuotientAtMost(a, d, d);
  }

  lemma QuotientAtLeast(a: int, t: int, d: Positive)
    requires 0 <= a && d <= t
    ensures a <= a * t / d
  {
    var q := a * t / d;
    assert a * t == d * q + a * t % d;
    if q < a {
      Products(d, q + 1, a);
      Products(a, d, t);
    }
  }

  lemma QuotientAtMost(a: int, t: int, d: Positive)
    requires 0 <= a && 0 <= t <= d
    ensures a * t / d <= a
  {
    var q := a * t / d;
    assert a * t == d * q + a * t % d;
    if a < q {
      Products(d, a + 1, q);
      Products(a, t, d);
    }
  }

  // ---- the average in closed form --------------------------------------------------------

  function Power(x: real, k: nat): real {
    if k == 0 then 1.0 else x * Power(x, k - 1)
  }

  // How much of an older average each new block keeps.
  function Kept(P: Params): real {
    1.0 - P.alpha
  }

  // What gap i adds to the average when it comes in.
  function Pull(P: Params, chain: seq<Block>, i: nat): real
    requires 1 <= i < |chain|
  {
    P.alpha * (Gap(chain, i) - P.targetBlockTime) as real
  }

  // What the gaps before block m add to the average after n blocks: each fades once for every
  // block since.
  function Deviations(P: Params, chain: seq<Block>, n: nat, m: nat): real
    requires m <= n <= |chain|
  {
    if m <= 1 then 0.0 else Deviations(P, chain, n, m - 1) + Power(Kept(P), n - m) * Pull(P, chain, m - 1)
  }

  lemma {:induction false} DeviationsFade(P: Params, chain: seq<Block>, n: nat, m: nat)
    requires m <= n < |chain|
    ensures Deviations(P, chain, n + 1, m) == Kept(P) * Deviations(P, chain, n, m)
    decreases m
  {
    hide Kept, Pull, Power;
    if 1 < m {
      DeviationsFade(P, chain, n, m - 1);
      FadeOnce(Kept(P), n - m, Pull(P, chain, m - 1), Deviations(P, chain, n, m - 1));
      assert n + 1 - m == (n - m) + 1;
    }
  }

  lemma FadeOnce(kept: real, k: nat, pull: real, rest: real)
    ensures kept * rest + Power(kept, k + 1) * pull == kept * (rest + Power(kept, k) * pull)
  {
    var p := Power(kept, k);
    assert Power(kept, k + 1) == kept * p;
    assert (kept * p) * pull == kept * (p * pull);
  }

  /** The moving average in closed form: the intended block time, plus alpha times each gap's
      deviation from it, faded by 1 - alpha for each later block. */
  lemma {:induction false} AverageClosedForm(P: Params, chain: seq<Block>, n: nat)
    requires 1 <= n <= |chain|
    ensures FastForward(P, chain, n).1 == P.targetBlockTime as real + Deviations(P, chain, n, n)
    decreases n
  {
    hide NextTarget, NextAverage, Kept, Pull, Power;
    if 1 < n {
      AverageClosedForm(P, chain, n - 1);
      DeviationsFade(P, chain, n - 1, n - 1);
      MixDeviation(P, chain, n - 1, Deviations(P, chain, n - 1, n - 1));
      NoFading(Kept(P), Pull(P, chain, n - 1));
    }
  }

  lemma NoFading(kept: real, pull: real)
    ensures Power(kept, 0) * pull == pull
  {
  }

  lemma MixDeviation(P: Params, chain: seq<Block>, i: nat, d: real)
    requires 1 <= i < |chain|
    ensures NextAverage(P, chain[i - 1], chain[i], P.targetBlockTime as real + d)
         == P.targetBlockTime as real + Kept(P) * d + Pull(P, chain, i)
  {
    Distribute(P.alpha, Gap(chain, i) as real, P.targetBlockTime as real, d);
    assert (Gap(chain, i) - P.targetBlockTime) as real == Gap(chain, i) as real - P.targetBlockTime as real;
  }

  lemma Distribute(alpha: real, gap: real, time: real, d: real)
    ensures alpha * gap + (1.0 - alpha) * (time + d) == time + (1.0 - alpha) * d + alpha * (gap - time)
  {
  }

  // ---- held blocks -----------------------------------------------------------------------

  /** A block that follows `prev` properly at clock `now`. */
  ghost predicate Sound(P: Params, prev: Block, b: Block, now: int) {
    && b.index == prev.index + 1 && b.previousHash == prev.hash
    && b.hash == HashOf(P, b) && b.hash < b.target && 0 < b.target < TWO_256
    && prev.timestamp < b.timestamp <= now + 15000
  }

  // The hash of the header with every field in its place.
  ghost function HashOf(P: Params, b: Block): Hash {
    P.headerHash(Header(b.index, b.previousHash, MerkleRoot(P, b.txs), b.stateRoot, b.receiptRoot, b.timestamp,
                        b.target, b.nonce, b.miner))
  }

  lemma {:induction false} GenuineBlocksSound(P: Params, chain: seq<Block>, n: nat, now: int)
    requires 1 <= n <= |chain| && Replay(P, chain, n, now).status == VALID && chain[0].index == 0
    ensures forall i | 0 <= i < n :: chain[i].index == i
    ensures forall i | 1 <= i < n :: Sound(P, chain[i - 1], chain[i], now)
    decreases n
  {
    hide ApplyTxs, Reward, Attests, NextTarget, NextAverage, CheckLink, HashOf;
    if 1 < n {
      GenuineBlocksSound(P, chain, n - 1, now);
      var r := Replay(P, chain, n - 1, now);
      assert ApplyBlock(P, chain[n - 2], chain[n - 1], r.accounts, r.target, r.avg, now).status == VALID;
      LinkVerdict(P, chain[n - 2], chain[n - 1], now);
    }
  }

  /** A block passes the link check exactly when it is sound. Otherwise the first rule that it
      breaks decides: rules on hashes make it INVALID, the others FAILED. */
  lemma LinkVerdict(P: Params, prev: Block, b: Block, now: int)
    ensures CheckLink(P, prev, b, now) == VALID <==> Sound(P, prev, b, now)
    ensures CheckLink(P, prev, b, now) == INVALID <==>
            || b.previousHash != prev.hash
            || (b.index == prev.index + 1 && b.hash != HashOf(P, b))
            || (b.index == prev.index + 1 && 0 < b.target < TWO_256 && b.target <= b.hash)
    ensures CheckLink(P, prev, b, now) in {VALID, INVALID, FAILED}
  {
    hide MerkleRoot;
  }

  /** The verdict on a block: VALID if and only if it is sound, carries the expected target, every
      transaction is valid, and its receipts and both roots are the recomputed ones. The link check
      and the first transaction that is not valid pass their own verdicts on; a wrong target,
      receipt or root is INVALID. */
  lemma BlockVerdict(P: Params, prev: Block, b: Block, m: Accounts, target: int, avg: real, now: int)
    ensures var r, txs := ApplyBlock(P, prev, b, m, target, avg, now), ApplyTxs(P, m, b.txs);
            && (r.status == VALID <==>
                  && Sound(P, prev, b, now) && b.target == target && txs.status == VALID
                  && b.receipts == txs.receipts && b.receiptRoot == ReceiptRoot(P, b.receipts)
                  && b.stateRoot == StateRoot(P, r.accounts))
            && (!Sound(P, prev, b, now) ==> r.status == CheckLink(P, prev, b, now))
            && (Sound(P, prev, b, now) && r.status != VALID ==>
                  r.status == if b.target == target && txs.status != VALID then txs.status else INVALID)
            && (r.status != VALID ==> r.target == target && r.avg == avg)
  {
    hide CheckLink, Sound, ApplyTxs, Fees, ReceiptRoot, StateRoot, NextTarget, NextAverage;
    LinkVerdict(P, prev, b, now);
  }

  /** What a valid block leaves: the miner has 50 and the fees on top of the transactions, and
      nobody else has anything; the average takes in the block's own gap, and the next target
      follows from the new average. */
  lemma BlockEffect(P: Params, prev: Block, b: Block, m: Accounts, target: int, avg: real, now: int, k: Address)
    requires ApplyBlock(P, prev, b, m, target, avg, now).status == VALID
    ensures var (r, acc) := (ApplyBlock(P, prev, b, m, target, avg, now), Lookup(ApplyTxs(P, m, b.txs).accounts, k));
            var earned := if b.miner == Some(k) && k != "" then 50 + Fees(b.receipts, b.txs) else 0;
            && Lookup(r.accounts, k) == acc.(balance := acc.balance + earned)
            && r.avg == P.alpha * (b.timestamp - prev.timestamp) as real + (1.0 - P.alpha) * avg
            && r.target == NextTarget(P, target, r.avg)
  {
    hide CheckLink, ApplyTxs, Fees, ReceiptRoot, StateRoot, NextTarget;
  }

  /** On every reachable node block i has index i, names the hash of block i - 1, is hashed
      honestly below its own in-bounds target, and is dated after its predecessor and not beyond
      the future bound. */
  lemma HeldBlocksAreSound(P: Params, ops: seq<Op>, begin: int)
    requires Ideal(P) && ValidGenesis(P) && InTime(ops, begin)
    ensures var chain := Run(P, ops).chain;
            && (forall i | 0 <= i < |chain| :: chain[i].index == i)
            && (forall i | 1 <= i < |chain| :: Sound(P, chain[i - 1], chain[i], ClockAfter(ops, begin)))
  {
    hide Replay, Run, Sound;
    ReplayInvariant(P, ops, begin);
    var chain := Run(P, ops).chain;
    GenuineBlocksSound(P, chain, |chain|, ClockAfter(ops, begin));
  }
}
