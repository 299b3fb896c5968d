/** Assignment into a block-cyclic `[VR,STAR]` matrix: which redistribution
    each source distribution pair is routed to, and the stride, size and
    communicator queries of the `[VR,STAR]` distribution. The data movement
    of the primitives is not modelled: they appear only as tags. */
module VRStar {

  /** Distribution of one matrix dimension, as El's `Dist` enumeration
      (the elementwise tags plus the single-owner `CIRC`). */
  datatype Dist = MC | MD | MR | VC | VR | STAR | CIRC

  /** `[colDist,rowDist]` of a matrix. */
  datatype DistPair = DistPair(colDist: Dist, rowDist: Dist)

  const VR_STAR := DistPair(VR, STAR)
  const CIRC_CIRC := DistPair(CIRC, CIRC)
  const MC_MR := DistPair(MC, MR)
  const MC_STAR := DistPair(MC, STAR)
  const MD_STAR := DistPair(MD, STAR)
  const MR_MC := DistPair(MR, MC)
  const MR_STAR := DistPair(MR, STAR)
  const STAR_MC := DistPair(STAR, MC)
  const STAR_MD := DistPair(STAR, MD)
  const STAR_MR := DistPair(STAR, MR)
  const STAR_STAR := DistPair(STAR, STAR)
  const STAR_VC := DistPair(STAR, VC)
  const STAR_VR := DistPair(STAR, VR)
  const VC_STAR := DistPair(VC, STAR)

  /** The distribution pairs a block-cyclic matrix can carry, in the order the
      abstract-source dispatcher tests them. */
  const BlockCyclicPairs: seq<DistPair> :=
    [CIRC_CIRC, MC_MR, MC_STAR, MD_STAR, MR_MC, MR_STAR, STAR_MC, STAR_MD,
     STAR_MR, STAR_STAR, STAR_VC, STAR_VR, VC_STAR, VR_STAR]

  predicate IsBlockCyclicPair(p: DistPair)
  {
    p in BlockCyclicPairs
  }

  /** The redistribution routines the assignment calls directly. */
  datatype Primitive = Translate | ColFilter | PartialColFilter | ColAllToAllDemote

  /** What one typed `[VR,STAR] = source` overload does:
      - `Direct(p)`: call the primitive `p`;
      - `Via(temporaries, final)`: build the temporaries in order (each from
        the previous one, the first from the source), build `final` from the
        last of them, free the temporaries and assign again from `final`;
      - `NotYetWritten`: raise "This routine is not yet written". */
  datatype Plan =
    | Direct(primitive: Primitive)
    | Via(temporaries: seq<DistPair>, final: DistPair)
    | NotYetWritten

  /** The typed overload for a source with distribution pair `source`. */
  function Assign(source: DistPair): (plan: Plan)
    requires IsBlockCyclicPair(source)
    ensures plan.Direct? <==> source in {VR_STAR, STAR_STAR, MR_STAR, MR_MC}
    ensures plan.NotYetWritten? <==> source in {VC_STAR, CIRC_CIRC}
    ensures plan.Via? ==> plan.final in {STAR_STAR, MR_MC, VC_STAR} && |plan.temporaries| <= 1
  {
    match source
    case DistPair(MC, MR) => Via([], VC_STAR)
    case DistPair(MC, STAR) => Via([], VC_STAR)
    case DistPair(STAR, MR) => Via([MC_MR], VC_STAR)
    case DistPair(MD, STAR) => Via([], STAR_STAR)
    case DistPair(STAR, MD) => Via([], STAR_STAR)
    case DistPair(MR, MC) => Direct(ColAllToAllDemote)
    case DistPair(MR, STAR) => Direct(PartialColFilter)
    case DistPair(STAR, MC) => Via([], MR_MC)
    case DistPair(VC, STAR) => NotYetWritten
    case DistPair(STAR, VC) => Via([], MR_MC)
    case DistPair(VR, STAR) => Direct(Translate)
    case DistPair(STAR, VR) => Via([MC_MR], VC_STAR)
    case DistPair(STAR, STAR) => Direct(ColFilter)
    case DistPair(CIRC, CIRC) => NotYetWritten
  }

  /** How an assignment ends: a primitive runs, or a logic error is raised. */
  datatype Terminal = Runs(primitive: Primitive) | Fails

  /** A whole assignment: the sources handed to the typed overloads of this
      file in order, every temporary matrix built on the way, and the end. */
  datatype Route = Route(dispatched: seq<DistPair>, temporaries: seq<DistPair>, terminal: Terminal)

  /** 1 for a source whose overload re-dispatches, 0 otherwise. */
  function Rank(source: DistPair): nat
    requires IsBlockCyclicPair(source)
  {
    if Assign(source).Via? then 1 else 0
  }

  /** Follow the overloads from `source` until one calls a primitive or fails. */
  function Resolve(source: DistPair): (r: Route)
    requires IsBlockCyclicPair(source)
    ensures 1 <= |r.dispatched| <= Rank(source) + 1 && r.dispatched[0] == source
    ensures |r.temporaries| <= 2 * Rank(source)
    ensures forall k :: 0 <= k < |r.dispatched| ==> IsBlockCyclicPair(r.dispatched[k])
    ensures forall k :: 1 <= k < |r.dispatched| ==> !Assign(r.dispatched[k]).Via?
    decreases Rank(source)
  {
    match Assign(source)
    case Direct(p) => Route([source], [], Runs(p))
    case NotYetWritten => Route([source], [], Fails)
    case Via(temporaries, final) =>
      var rest := Resolve(final);
      Route([source] + rest.dispatched, temporaries + [final] + rest.temporaries, rest.terminal)
  }

  /** Every assignment into `[VR,STAR]` reaches a primitive or an error after at
      most one re-dispatch and at most two temporaries; which one is decided
      by the source pair as follows. */
  lemma {:induction false} ResolveTable(source: DistPair)
    requires IsBlockCyclicPair(source)
    ensures |Resolve(source).dispatched| <= 2 && |Resolve(source).temporaries| <= 2
    ensures Resolve(source).terminal == Runs(Translate) <==> source == VR_STAR
    ensures Resolve(source).terminal == Runs(ColFilter) <==> source in {STAR_STAR, MD_STAR, STAR_MD}
    ensures Resolve(source).terminal == Runs(PartialColFilter) <==> source == MR_STAR
    ensures Resolve(source).terminal == Runs(ColAllToAllDemote) <==> source in {MR_MC, STAR_MC, STAR_VC}
    ensures Resolve(source).terminal == Fails <==>
              source in {VC_STAR, CIRC_CIRC, MC_MR, MC_STAR, STAR_MR, STAR_VR}
  {
    var plan := Assign(source);
    if plan.Via? {
      assert Resolve(source).terminal == Resolve(plan.final).terminal;
    }
  }

  /** The detours of the overloads: where each one re-dispatches from. */
  lemma DetourTargets(source: DistPair)
    requires IsBlockCyclicPair(source)
    ensures source in {MD_STAR, STAR_MD} <==> Assign(source).Via? && Assign(source).final == STAR_STAR
    ensures source in {STAR_MC, STAR_VC} <==> Assign(source).Via? && Assign(source).final == MR_MC
    ensures source in {MC_MR, MC_STAR, STAR_MR, STAR_VR} <==>
              Assign(source).Via? && Assign(source).final == VC_STAR
    ensures source in {STAR_MR, STAR_VR} <==> Assign(source).Via? && Assign(source).temporaries == [MC_MR]
  {
  }

  // ---------------------------------------------------------------------
  // The abstract-source dispatcher
  // ---------------------------------------------------------------------

  /** The first guard in `guards` that matches the tags `tags`, as the chain of
      `if GUARD(...) PAYLOAD(...) else if ...` tests them. */
  function FirstMatch(guards: seq<DistPair>, tags: DistPair): (r: Option<DistPair>)
    ensures r.Some? <==> tags in guards
    ensures r.Some? ==> r.value == tags
  {
    if guards == [] then None
    else if guards[0] == tags then Some(guards[0])
    else FirstMatch(guards[1..], tags)
  }

  datatype Option<T> = None | Some(value: T)

  /** `[VR,STAR] = A` for a block-cyclic matrix `A` of statically unknown
      distribution: cast to the typed matrix its tags name and assign from it.
      `None` stands for tags no guard matches, which no block-cyclic matrix has. */
  function AssignAbstract(tags: DistPair): (r: Option<Plan>)
    ensures r.Some? <==> IsBlockCyclicPair(tags)
    ensures r.Some? ==> r.value == Assign(tags)
  {
    match FirstMatch(BlockCyclicPairs, tags)
    case None => None
    case Some(p) => Some(Assign(p))
  }

  // ---------------------------------------------------------------------
  // Basic queries
  // ---------------------------------------------------------------------

  /** A process grid of `height` x `width` processes. */
  datatype Grid = Grid(height: int, width: int)
  {
    ghost predicate Valid() { height >= 1 && width >= 1 }
    function MCSize(): int { height }
    function MRSize(): int { width }
    function VRSize(): int { height * width }
  }

  /** The communicators the queries return; `Self` is `mpi::COMM_SELF`. */
  datatype Comm = VRComm | MCComm | MRComm | Self

  function CommSize(g: Grid, comm: Comm): int
  {
    match comm
    case VRComm => g.VRSize()
    case MCComm => g.MCSize()
    case MRComm => g.MRSize()
    case Self => 1
  }

  /** The processes that share the distribution of the rows: the whole grid. */
  function DistComm(): (c: Comm)
    ensures forall g: Grid :: CommSize(g, c) == g.height * g.width
  {
    VRComm
  }

  /** The cross communicator of a `[VR,STAR]` matrix holds one process. */
  function CrossComm(): (c: Comm)
    ensures forall g: Grid :: CommSize(g, c) == 1
  {
    Self
  }

  /** The processes holding the same entries: only this one, since nothing is replicated. */
  function RedundantComm(): (c: Comm)
    ensures forall g: Grid :: CommSize(g, c) == 1
  {
    Self
  }

  /** The processes over which a column is spread: the whole grid, as `DistComm`. */
  function ColComm(): (c: Comm)
    ensures c == DistComm()
    ensures forall g: Grid :: CommSize(g, c) == g.height * g.width
  {
    VRComm
  }

  /** A row is held entirely by one process. */
  function RowComm(): (c: Comm)
    ensures forall g: Grid :: CommSize(g, c) == 1
  {
    Self
  }

  /** The `MR` part of the column distribution: one grid row of `width` processes. */
  function PartialColComm(): (c: Comm)
    ensures forall g: Grid :: CommSize(g, c) == g.width
  {
    MRComm
  }

  /** The `MC` part of the column distribution: one grid column of `height` processes. */
  function PartialUnionColComm(): (c: Comm)
    ensures forall g: Grid :: CommSize(g, c) == g.height
  {
    MCComm
  }

  function ColStride(g: Grid): (s: int)
    ensures s == CommSize(g, ColComm())
  {
    g.VRSize()
  }

  function RowStride(g: Grid): (s: int)
    ensures s == CommSize(g, RowComm())
  {
    1
  }

  function PartialColStride(g: Grid): (s: int)
    ensures s == CommSize(g, PartialColComm())
  {
    g.MRSize()
  }

  function PartialUnionColStride(g: Grid): (s: int)
    ensures s == CommSize(g, PartialUnionColComm())
  {
    g.MCSize()
  }

  function DistSize(g: Grid): (s: int)
    ensures s == CommSize(g, DistComm())
  {
    g.VRSize()
  }

  function CrossSize(g: Grid): (s: int)
    ensures s == CommSize(g, CrossComm())
  {
    1
  }

  function RedundantSize(g: Grid): (s: int)
    ensures s == CommSize(g, RedundantComm())
  {
    1
  }

  /** Rows are distributed over the whole grid in row-major order: the column
      stride is the full process count, split into the partial stride (the
      `MR` part) times the partial-union stride (the `MC` part), and the rows
      are neither further distributed nor replicated. */
  lemma StrideFactorisation(g: Grid)
    requires g.Valid()
    ensures ColStride(g) == DistSize(g) == g.VRSize()
    ensures ColStride(g) == PartialColStride(g) * PartialUnionColStride(g)
    ensures RowStride(g) == CrossSize(g) == RedundantSize(g) == 1
    ensures PartialColStride(g) == g.MRSize() && PartialUnionColStride(g) == g.MCSize()
    ensures ColStride(g) >= PartialColStride(g) && ColStride(g) >= PartialUnionColStride(g)
  {
  }
}
