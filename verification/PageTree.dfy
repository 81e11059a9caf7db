/** The four-level page-table tree as a set of index paths, and the invariant
    that makes it a tree: in the lower half every frame is reached by one path. */
module PageTree {
  import opened Words
  import opened Memory

  /** The indices from the root table down to a table or page. */
  datatype Path = Root | Sub(parent: Path, index: nat)

  function Depth(p: Path): nat {
    match p
    case Root => 0
    case Sub(q, _) => Depth(q) + 1
  }

  /** The first index of a path. */
  function Top(p: Path): nat {
    match p
    case Root => 0
    case Sub(q, i) => if q.Root? then i else Top(q)
  }

  predicate Valid(p: Path) {
    match p
    case Root => true
    case Sub(q, i) => Valid(q) && Depth(q) < 4 && i < ENTRIES
  }

  predicate Lower(p: Path) { Valid(p) && Top(p) < 256 }

  predicate Upper(p: Path) { Valid(p) && Top(p) >= 256 }

  /** q is p or lies below it. */
  predicate Within(q: Path, p: Path) { q == p || (q.Sub? && Within(q.parent, p)) }

  /** Where an entry at the given depth leads: nowhere if it is not present or
      if it maps a large page (a set page-size bit in a level-3 or level-2 entry). */
  function Child(e: Word, depth: nat): Option<Frame> {
    if e.present && !(e.pageSize && (depth == 2 || depth == 3)) then Some(e.address) else None
  }

  /** The frame that path p reaches from root table r. */
  function Walk(m: Mem, r: Frame, p: Path): Option<Frame>
    decreases p, 1
  {
    if p.Root? then Some(r) else Child(Entry(m, r, p), Depth(p))
  }

  /** The entry that path p ends in; ZERO when its table does not exist. */
  function Entry(m: Mem, r: Frame, p: Path): Word
    requires p.Sub?
    decreases p, 0
  {
    var t := Walk(m, r, p.parent);
    if t.None? then ZERO else At(m, t.value, p.index)
  }

  /** The paths whose frames are kept apart: lower-half ones down to depth d
      and upper-half tables (upper-half pages may alias anything). */
  predicate Node(p: Path, d: nat) { Valid(p) && Depth(p) <= (if Upper(p) then 3 else d) }

  /** Lower-half frames down to depth d are reached by one path only, and no
      table or lower-half page is on the freelist. */
  ghost predicate Tree(m: Mem, r: Frame, free: seq<Frame>, d: nat) {
    && (forall q {:trigger Walk(m, r, q)} :: Node(q, d) && Walk(m, r, q).Some? ==>
         0 < Walk(m, r, q).value < |m| && Walk(m, r, q).value !in free)
    && (forall p, q {:trigger Walk(m, r, p), Walk(m, r, q)} ::
        Lower(p) && Node(p, d) && Node(q, d) && Walk(m, r, p).Some? && Walk(m, r, p) == Walk(m, r, q) ==>
         p == q)
  }

  /** Frame f holds a lower-half table other than the root, or a lower-half page. */
  ghost predicate Owned(m: Mem, r: Frame, f: Frame) {
    exists p {:trigger Walk(m, r, p)} :: Lower(p) && p.Sub? && Walk(m, r, p) == Some(f)
  }

  /** What the invariant keeps track of beside the machine state. */
  datatype Ledger = Ledger(free: seq<Frame>, leaked: set<Frame>, pool: set<Frame>)

  ghost predicate NoLargePages(m: Mem, r: Frame) {
    forall p {:trigger Entry(m, r, p)} :: Lower(p) && 2 <= Depth(p) <= 3 ==> !Entry(m, r, p).pageSize
  }

  /** Entries that lead to a lower-half table restrict nothing. */
  ghost predicate Permissive(m: Mem, r: Frame) {
    forall p {:trigger Walk(m, r, p)} {:trigger Entry(m, r, p)} ::
        Lower(p) && 1 <= Depth(p) <= 3 && Walk(m, r, p).Some? ==>
      Entry(m, r, p).user && Entry(m, r, p).writable && !Entry(m, r, p).noExecute
  }

  /** Free, owned and leaked frames partition the pool. */
  ghost predicate Partition(m: Mem, r: Frame, g: Ledger) {
    && (forall f: Frame :: f in g.pool <==> f in g.free || f in g.leaked || Owned(m, r, f))
    && (forall f: Frame :: f in g.leaked ==> f !in g.free && !Owned(m, r, f))
  }

  ghost predicate Inv(s: Phys, r: Frame, g: Ledger) {
    && Chain(s, g.free)
    && Tree(s.mem, r, g.free, 4)
    && NoLargePages(s.mem, r)
    && Permissive(s.mem, r)
    && Partition(s.mem, r, g)
  }

  // ---- rereading the tree after a write ----

  lemma {:induction false} WithinDepth(q: Path, p: Path)
    requires Within(q, p)
    ensures Depth(p) <= Depth(q) && (Depth(p) == Depth(q) ==> p == q)
    ensures p.Sub? ==> Top(q) == Top(p)
  {
    if q != p {
      WithinDepth(q.parent, p);
    }
  }

  /** If every cell read on the way to paths outside `cut` is unchanged, those paths read the same. */
  lemma {:induction false} Reread(m: Mem, m': Mem, r: Frame, cut: Path, q: Path)
    requires Valid(q) && !Within(q, cut)
    requires forall a {:trigger Entry(m, r, a)} ::
        Valid(a) && a.Sub? && !Within(a, cut) && Walk(m, r, a.parent).Some? ==>
      At(m', Walk(m, r, a.parent).value, a.index) == Entry(m, r, a)
    ensures Walk(m', r, q) == Walk(m, r, q)
    ensures q.Sub? ==> Entry(m', r, q) == Entry(m, r, q)
  {
    if q.Sub? {
      Reread(m, m', r, cut, q.parent);
    }
  }

  /** m' reads like m except that the entry at `target` is e. */
  ghost predicate Edited(m: Mem, m': Mem, r: Frame, target: Path, e: Word) {
    && |m'| == |m|
    && forall q {:trigger Entry(m', r, q)} {:trigger Entry(m, r, q)} :: Valid(q) && q.Sub? ==>
        Entry(m', r, q) == if q == target then e else Entry(m, r, q)
  }

  lemma EditedWalk(m: Mem, m': Mem, r: Frame, target: Path, e: Word, q: Path)
    requires Edited(m, m', r, target, e) && Valid(q) && target.Sub?
    ensures Walk(m', r, q) == if q == target then Child(e, Depth(target)) else Walk(m, r, q)
  {
  }
}
