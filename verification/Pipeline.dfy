/** What a compressed pack is: the filters that were applied, the data each of them saw, and the
    symbols they wrote. */
module Pipeline {
  import opened Arith
  import opened RangeCoding
  import opened FreqTable
  import opened DataSets
  import opened TopBitDicts
  import MinFilter
  import GcdFilter
  import DiffFilter
  import UniformFilter
  import PartDicts

  /** A filter's decision; Skip when it declined. */
  datatype Stage =
    | Skip
    | MinStage(minval: nat)
    | GcdStage(gcd: nat)
    | DiffStage
    | PartStage(table: Table)
    | TopStage(split: Split)
    | LowStage(split: Split)
    | UniStage

  /** The type's width and the size limit of its dictionaries. */
  datatype Kind = Kind(w: nat, maxkeys: nat)

  /** Filter f, in the order of the compressor's constructor, may decide st on data d. The first two apply
      whenever they can, the third needs a hundred records, the last always applies. */
  ghost predicate StageFits(st: Stage, f: nat, d: Records, k: Kind) {
    && d.Valid(k.w)
    && match st
       case Skip => f < 6 && (f == 0 ==> 0 in d.vals) && (f == 1 ==> exists g :: g <= 1 && GcdFilter.IsGcd(g, d.vals))
       case MinStage(m) => f == 0 && MinFilter.Fits(m, d)
       case GcdStage(g) => f == 1 && GcdFilter.Fits(g, d)
       case DiffStage => f == 2 && 100 <= |d.vals|
       case PartStage(t) => f == 3 && PartDicts.Fits(t, d)
       case TopStage(s) => f == 4 && TopBitDicts.Fits(s, d, true, k.maxkeys, k.w)
       case LowStage(s) => f == 5 && TopBitDicts.Fits(s, d, false, k.maxkeys, k.w)
       case UniStage => f == 6
  }

  ghost function StageSyms(st: Stage, f: nat, d: Records, k: Kind): seq<Sym>
    requires StageFits(st, f, d, k)
  {
    match st
    case Skip => []
    case MinStage(m) => MinFilter.FitsBound(m, d); MinFilter.Syms(m, d)
    case GcdStage(g) => GcdFilter.Syms(g, d)
    case DiffStage => DiffFilter.Syms()
    case PartStage(t) => PartDicts.Syms(t, d)
    case TopStage(s) => TopBitDicts.Syms(s, d, true, k.maxkeys, k.w)
    case LowStage(s) => TopBitDicts.Syms(s, d, false, k.maxkeys, k.w)
    case UniStage => UniformFilter.Syms(d)
  }

  /** The data the next filter sees. */
  ghost function StageRest(st: Stage, f: nat, d: Records, k: Kind): Records
    requires StageFits(st, f, d, k)
  {
    match st
    case Skip => d
    case MinStage(m) => MinFilter.Rest(m, d)
    case GcdStage(g) => GcdFilter.Rest(g, d)
    case DiffStage => DiffFilter.Rest(d, k.w)
    case PartStage(t) => PartDicts.Rest(t, d)
    case TopStage(s) => TopBitDicts.Rest(s, d, true)
    case LowStage(s) => TopBitDicts.Rest(s, d, false)
    case UniStage => d
  }

  function Flat(parts: seq<seq<Sym>>): seq<Sym> {
    if parts == [] then [] else parts[0] + Flat(parts[1..])
  }

  lemma {:induction false} FlatSnoc(parts: seq<seq<Sym>>, p: seq<Sym>)
    ensures Flat(parts + [p]) == Flat(parts) + p
    decreases |parts|
  {
    if parts == [] {
      assert parts + [p] == [p];
      assert Flat([p]) == p + Flat([]);
    } else {
      FlatSnoc(parts[1..], p);
      assert (parts + [p])[1..] == parts[1..] + [p];
    }
  }

  /** A run of the filters: decisions and the data before each of them, and after the last. */
  datatype Plan = Plan(stages: seq<Stage>, chain: seq<Records>) {

    /** Decisions fit, each on what the one before left, until nothing is left or the filters are used up. */
    ghost predicate Runs(d: Records, k: Kind) {
      && |stages| <= 7 && |chain| == |stages| + 1 && chain[0] == d
      && (forall i :: 0 <= i < |stages| ==> StageFits(stages[i], i, chain[i], k) && chain[i].vals != [])
      && (forall i :: 0 <= i < |stages| ==> chain[i+1] == StageRest(stages[i], i, chain[i], k))
    }

    ghost predicate Complete() {
      |chain| == |stages| + 1 && (|stages| == 7 || chain[|stages|].vals == [])
    }

    ghost function Parts(d: Records, k: Kind): (parts: seq<seq<Sym>>)
      requires Runs(d, k)
      ensures |parts| == |stages|
      ensures forall i :: 0 <= i < |stages| ==> parts[i] == StageSyms(stages[i], i, chain[i], k)
    {
      seq(|stages|, i requires 0 <= i < |stages| => StageSyms(stages[i], i, chain[i], k))
    }

    ghost function Next(st: Stage, e: Records): Plan {
      Plan(stages + [st], chain + [e])
    }

    lemma NextRuns(d: Records, k: Kind, st: Stage)
      requires Runs(d, k) && |stages| < 7 && chain[|stages|].vals != []
      requires StageFits(st, |stages|, chain[|stages|], k)
      ensures var n := |stages|;
              var next := Next(st, StageRest(st, n, chain[n], k));
              && next.Runs(d, k)
              && next.Parts(d, k) == Parts(d, k) + [StageSyms(st, n, chain[n], k)]
    {
    }
  }

  /** One more decision. */
  lemma PlanStep(plan: Plan, d: Records, k: Kind, st: Stage)
    requires plan.Runs(d, k) && |plan.stages| < 7 && plan.chain[|plan.stages|].vals != []
    requires StageFits(st, |plan.stages|, plan.chain[|plan.stages|], k)
    ensures var n := |plan.stages|;
            var next := plan.Next(st, StageRest(st, n, plan.chain[n], k));
            && next.Runs(d, k)
            && Flat(next.Parts(d, k)) == Flat(plan.Parts(d, k)) + StageSyms(st, n, plan.chain[n], k)
            && IdOf(next.stages) == IdOf(plan.stages) + if st.Skip? then 0 else Pow2(n)
  {
    hide StageFits, StageSyms, StageRest;
    var n := |plan.stages|;
    plan.NextRuns(d, k, st);
    FlatSnoc(plan.Parts(d, k), StageSyms(st, n, plan.chain[n], k));
    assert (plan.stages + [st])[..n] == plan.stages;
  }

  lemma SkipLeavesAll(plan: Plan, d: Records, k: Kind, f: nat)
    requires plan.Runs(d, k) && f < |plan.stages| && plan.stages[f].Skip?
    ensures plan.chain[f+1] == plan.chain[f] && plan.Parts(d, k)[f] == [] && f != 6
  {
  }

  lemma LastIsUniform(plan: Plan, d: Records, k: Kind, f: nat)
    requires plan.Runs(d, k) && f < |plan.stages|
    ensures f == 6 ==> plan.stages[f].UniStage? && plan.chain[f+1] == plan.chain[f]
  {
  }

  /** No filter adds records. */
  lemma {:induction false} ChainShrinks(plan: Plan, d: Records, k: Kind, f: nat)
    requires plan.Runs(d, k) && f <= |plan.stages|
    ensures |plan.chain[f].vals| <= |d.vals|
  {
    if f > 0 {
      ChainShrinks(plan, d, k, f - 1);
      RestIsNotLonger(plan.stages[f-1], f - 1, plan.chain[f-1], k);
    }
  }

  lemma RestIsNotLonger(st: Stage, f: nat, d: Records, k: Kind)
    requires StageFits(st, f, d, k)
    ensures |StageRest(st, f, d, k).vals| <= |d.vals|
  {
  }

  /** The bytes of a pack that was compressed by a complete run. */
  ghost predicate IsCodeOf(plan: Plan, bytes: seq<byte>, d: Records, k: Kind) {
    && plan.Runs(d, k) && plan.Complete()
    && AllValid(Flat(plan.Parts(d, k)))
    && IdOf(plan.stages) < 0x1_0000
    && bytes == [1, IdOf(plan.stages) % 256, IdOf(plan.stages) / 256] + Emit(0, 0xFFFF_FFFF, Flat(plan.Parts(d, k)))
  }

  /** The symbols a run has sent, up to some point, take more bytes than there are. */
  ghost predicate TooLong(plan: Plan, sent: seq<Sym>, room: int, d: Records, k: Kind) {
    && plan.Runs(d, k) && sent <= Flat(plan.Parts(d, k)) && AllValid(sent)
    && |Emit(0, 0xFFFF_FFFF, sent)| > room
  }

  /** The compression ID: bit f says that filter f was applied. */
  function IdOf(stages: seq<Stage>): nat {
    if stages == [] then 0
    else IdOf(stages[..|stages|-1]) + if stages[|stages|-1].Skip? then 0 else Pow2(|stages| - 1)
  }

  predicate Bit(id: nat, f: nat) {
    id / Pow2(f) % 2 == 1
  }

  lemma {:induction false} IdBelow(stages: seq<Stage>)
    ensures IdOf(stages) < Pow2(|stages|)
    decreases |stages|
  {
    if stages != [] {
      IdBelow(stages[..|stages|-1]);
    }
  }

  lemma IdFits(plan: Plan, d: Records, k: Kind)
    requires plan.Runs(d, k)
    ensures IdOf(plan.stages) < 128
  {
    IdBelow(plan.stages);
    Pow2Monotone(|plan.stages|, 7);
    assert Pow2(7) == 2 * Pow2(6);
    Pow2Values();
  }

  lemma {:induction false} BitOfId(stages: seq<Stage>, f: nat)
    requires f < |stages|
    ensures Bit(IdOf(stages), f) <==> !stages[f].Skip?
    decreases |stages|
  {
    var n := |stages| - 1;
    var low := IdOf(stages[..n]);
    IdBelow(stages[..n]);
    if f == n {
      BitAtTop(low, n);
    } else {
      BitOfId(stages[..n], f);
      BitBelowTop(low, f, n);
    }
  }

  lemma BitAtTop(low: nat, n: nat)
    requires low < Pow2(n)
    ensures !Bit(low, n) && Bit(low + Pow2(n), n)
  {
    hide Pow2;
    QuotientInside(low, Pow2(n), 0, 1);
    QuotientInside(low + Pow2(n), Pow2(n), 1, 1);
  }

  lemma BitBelowTop(low: nat, f: nat, n: nat)
    requires f < n
    ensures Bit(low + Pow2(n), f) == Bit(low, f)
  {
    hide Pow2;
    var p, m := Pow2(f), Pow2(n - 1 - f);
    Pow2Add(f, n - 1 - f);
    Pow2Double(n - 1);
    SameParity(low, p, m, Pow2(n));
  }

  lemma SameParity(low: nat, p: nat, m: nat, top: nat)
    requires 0 < p && top == 2 * (p * m)
    ensures (low + top) / p % 2 == low / p % 2
  {
    TwiceProduct(p, m);
    QuotientOfSum(low, p, 2 * m);
  }

  lemma TwiceProduct(p: nat, m: nat)
    ensures 2 * (p * m) == 2 * m * p
  {
  }

  lemma QuotientOfSum(x: nat, p: nat, k: nat)
    requires 0 < p
    ensures (x + k * p) / p == x / p + k
  {
    var q, r := x / p, x % p;
    assert x == q * p + r;
    assert x + k * p == (q + k) * p + r;
    DivUnique(x + k * p, p, q + k, r);
  }
}
