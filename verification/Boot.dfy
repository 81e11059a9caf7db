/** Building the frame pool at boot: from the boot loader's memory map to the freelist. */
module Boot {
  import opened Words
  import opened Memory
  import opened PageTree
  import opened TreeEdits
  import opened UnmapLowerHalf
  import opened Pager

  /** An entry of the stivale2 memory map; kind 1 is usable memory. */
  datatype MapEntry = MapEntry(base: nat, length: nat, kind: nat)

  datatype Section = Section(start: nat, end: nat)

  const MAX_MEM_SECTIONS: nat := 10

  function Sections(entries: seq<MapEntry>): seq<Section> {
    if entries == [] then []
    else
      var e, before := entries[|entries| - 1], Sections(entries[..|entries| - 1]);
      if e.kind == 1 then before + [Section(e.base, e.base + e.length)] else before
  }

  // ---- the loops of freelist_init ----

  function FreeAddress(s: Phys, p: nat): Phys
    requires p < 0x10_0000_0000_0000
  {
    if p % 4096 != 0 then s else Free(s, p / 4096)
  }

  function FreeRange(s: Phys, start: nat, end: nat): Phys
    requires end < 0x10_0000_0000_0000
    decreases end - start
  {
    if start + 4096 <= end then FreeRange(FreeAddress(s, start), start + 4096, end) else s
  }

  function FreeSections(s: Phys, sections: seq<Section>): Phys
    requires forall c :: c in sections ==> c.end < 0x10_0000_0000_0000
    decreases |sections|
  {
    if sections == [] then s
    else FreeSections(FreeRange(s, sections[0].start, sections[0].end), sections[1..])
  }

  // ---- the freelist they build ----

  /** Frame x is a whole nonzero page of the section; an unaligned section has none that `pmem_free` accepts. */
  predicate InSection(x: nat, c: Section) {
    c.start % 4096 == 0 && x != 0 && c.start <= 4096 * x && 4096 * x + 4096 <= c.end
  }

  function RangeFrames(start: nat, end: nat, free: seq<Frame>): seq<Frame>
    requires end < 0x10_0000_0000_0000
    decreases end - start
  {
    if start + 4096 <= end then
      RangeFrames(start + 4096, end, if start % 4096 == 0 && start != 0 then [start / 4096] + free else free)
    else free
  }

  function SectionFrames(sections: seq<Section>, free: seq<Frame>): seq<Frame>
    requires forall c :: c in sections ==> c.end < 0x10_0000_0000_0000
  {
    if sections == [] then free
    else SectionFrames(sections[1..], RangeFrames(sections[0].start, sections[0].end, free))
  }

  lemma {:induction false} RangeMembers(start: nat, end: nat, free: seq<Frame>, x: Frame)
    requires end < 0x10_0000_0000_0000
    ensures x in RangeFrames(start, end, free) <==> x in free || InSection(x, Section(start, end))
    decreases end - start
  {
    if start + 4096 <= end {
      RangeMembers(start + 4096, end, if start % 4096 == 0 && start != 0 then [start / 4096] + free else free, x);
    }
  }

  lemma {:induction false} SectionMembers(sections: seq<Section>, free: seq<Frame>, x: Frame)
    requires forall c :: c in sections ==> c.end < 0x10_0000_0000_0000
    ensures x in SectionFrames(sections, free) <==> x in free || exists c :: c in sections && InSection(x, c)
  {
    if sections != [] {
      var c0 := sections[0];
      SectionMembers(sections[1..], RangeFrames(c0.start, c0.end, free), x);
      RangeMembers(c0.start, c0.end, free, x);
      assert sections == [c0] + sections[1..];
    }
  }

  /** No page table is at frame f. */
  ghost predicate NoTableAt(m: Mem, r: Frame, f: Frame) {
    forall q {:trigger Walk(m, r, q)} :: Valid(q) && Depth(q) <= 3 ==> Walk(m, r, q) != Some(f)
  }

  /** Pushing a frame that holds no table. */
  lemma PushKeepsTree(s: Phys, r: Frame, free: seq<Frame>, f: Frame)
    requires Chain(s, free) && Tree(s.mem, r, free, 3)
    requires 0 < f < |s.mem| && f !in free && NoTableAt(s.mem, r, f)
    ensures Chain(Free(s, f), [f] + free) && Tree(Free(s, f).mem, r, [f] + free, 3)
    ensures forall x: Frame :: NoTableAt(s.mem, r, x) ==> NoTableAt(Free(s, f).mem, r, x)
  {
    FreePushes(s, free, f);
    var m' := Free(s, f).mem;
    AtPut(s.mem, f, 0, Link(s.top));
    forall q | Valid(q) ensures Walk(m', r, q) == Walk(s.mem, r, q) {
      NonTableWrite(s.mem, m', r, f, q);
    }
  }

  lemma {:induction false} FreeRangeSpec(s: Phys, r: Frame, free: seq<Frame>, start: nat, end: nat)
    requires Chain(s, free) && Tree(s.mem, r, free, 3) && end <= 4096 * |s.mem| && end < 0x10_0000_0000_0000
    requires forall x: Frame :: InSection(x, Section(start, end)) ==> x !in free && NoTableAt(s.mem, r, x)
    ensures
      var s', free' := FreeRange(s, start, end), RangeFrames(start, end, free);
      && Chain(s', free') && Tree(s'.mem, r, free', 3) && |s'.mem| == |s.mem|
      && forall x: Frame :: NoTableAt(s.mem, r, x) ==> NoTableAt(s'.mem, r, x)
    decreases end - start
  {
    if start + 4096 <= end {
      var s1, free1 := FreeAddress(s, start), free;
      if start % 4096 == 0 && start != 0 {
        assert InSection(start / 4096, Section(start, end));
        PushKeepsTree(s, r, free, start / 4096);
        free1 := [start / 4096] + free;
      }
      forall x: Frame | InSection(x, Section(start + 4096, end)) ensures x !in free1 && NoTableAt(s1.mem, r, x) {
        assert InSection(x, Section(start, end));
      }
      FreeRangeSpec(s1, r, free1, start + 4096, end);
    }
  }

  ghost predicate Disjoint(sections: seq<Section>) {
    forall i, j, x: nat :: 0 <= i < j < |sections| && InSection(x, sections[i]) ==> !InSection(x, sections[j])
  }

  lemma {:induction false} FreeSectionsSpec(s: Phys, r: Frame, free: seq<Frame>, sections: seq<Section>)
    requires Chain(s, free) && Tree(s.mem, r, free, 3) && Disjoint(sections)
    requires forall c :: c in sections ==> c.end <= 4096 * |s.mem| && c.end < 0x10_0000_0000_0000
    requires forall c, x: Frame :: c in sections && InSection(x, c) ==> x !in free && NoTableAt(s.mem, r, x)
    ensures
      var s', free' := FreeSections(s, sections), SectionFrames(sections, free);
      Chain(s', free') && Tree(s'.mem, r, free', 3) && |s'.mem| == |s.mem|
    decreases |sections|
  {
    if sections != [] {
      var c0, rest := sections[0], sections[1..];
      FreeRangeSpec(s, r, free, c0.start, c0.end);
      var s1, free1 := FreeRange(s, c0.start, c0.end), RangeFrames(c0.start, c0.end, free);
      forall c, x: Frame | c in rest && InSection(x, c) ensures x !in free1 && NoTableAt(s1.mem, r, x) {
        RangeMembers(c0.start, c0.end, free, x);
        var j :| 0 <= j < |rest| && rest[j] == c;
        assert sections[j + 1] == c;
      }
      forall i, j, x: nat | 0 <= i < j < |rest| && InSection(x, rest[i]) ensures !InSection(x, rest[j]) {
        assert rest[i] == sections[i + 1] && rest[j] == sections[j + 1];
      }
      FreeSectionsSpec(s1, r, free1, rest);
    }
  }

  /** After boot the freelist holds exactly the nonzero whole pages of the usable entries, each once, and the
      boot loader's page tables still form a tree apart from it: the starting point of every run. */
  lemma BootBuildsThePool(s: Phys, r: Frame, entries: seq<MapEntry>)
    requires s.top == 0 && Tree(s.mem, r, [], 3)
    requires Disjoint(Sections(entries))
    requires forall c :: c in Sections(entries) ==> c.end <= 4096 * |s.mem| && c.end < 0x10_0000_0000_0000
    requires forall c, x: Frame :: c in Sections(entries) && InSection(x, c) ==> NoTableAt(s.mem, r, x)
    ensures
      var s', free := FreeSections(s, Sections(entries)), SectionFrames(Sections(entries), []);
      && Chain(s', free) && Tree(s'.mem, r, free, 3)
      && (forall i, j :: 0 <= i < j < |free| ==> free[i] != free[j])
      && (forall x: Frame :: x in free <==>
          exists e :: e in entries && e.kind == 1 && InSection(x, Section(e.base, e.base + e.length)))
  {
    var sections := Sections(entries);
    var s', free := FreeSections(s, sections), SectionFrames(sections, []);
    FreeSectionsSpec(s, r, [], sections);
    forall i, j | 0 <= i < j < |free| ensures free[i] != free[j] {
      ChainHasNoDuplicates(s', free, i, j);
    }
    forall x: Frame
      ensures x in free <==> exists e :: e in entries && e.kind == 1 && InSection(x, Section(e.base, e.base + e.length))
    {
      SectionMembers(sections, [], x);
      SectionsAreUsable(entries, x);
    }
  }

  lemma {:induction false} SectionsAreUsable(entries: seq<MapEntry>, x: nat)
    ensures (exists c :: c in Sections(entries) && InSection(x, c)) <==>
      (exists e :: e in entries && e.kind == 1 && InSection(x, Section(e.base, e.base + e.length)))
  {
    if entries != [] {
      var n := |entries| - 1;
      SectionsAreUsable(entries[..n], x);
      assert entries == entries[..n] + [entries[n]];
    }
  }

  // ---- the boot code ----

  /** `get_mem_address`: start and end of each usable entry, in turn. */
  method GetMemAddress(entries: seq<MapEntry>, result: array<nat>) returns (index: nat)
    requires result.Length == MAX_MEM_SECTIONS && 2 * |Sections(entries)| <= MAX_MEM_SECTIONS
    modifies result
    ensures index == 2 * |Sections(entries)|
    ensures forall k :: 0 <= k < |Sections(entries)| ==>
      result[2 * k] == Sections(entries)[k].start && result[2 * k + 1] == Sections(entries)[k].end
  {
    index := 0;
    for i := 0 to |entries|
      invariant index == 2 * |Sections(entries[..i])|
      invariant forall k :: 0 <= k < |Sections(entries[..i])| && 2 * k + 1 < MAX_MEM_SECTIONS ==>
        result[2 * k] == Sections(entries[..i])[k].start && result[2 * k + 1] == Sections(entries[..i])[k].end
    {
      assert entries[..i + 1][..i] == entries[..i];
      SectionsGrow(entries, i + 1);
      if entries[i].kind == 1 {
        result[index] := entries[i].base;
        index := index + 1;
        result[index] := entries[i].base + entries[i].length;
        index := index + 1;
      }
    }
    assert entries[..|entries|] == entries;
  }

  lemma {:induction false} SectionsGrow(entries: seq<MapEntry>, i: nat)
    requires i <= |entries|
    ensures |Sections(entries[..i])| <= |Sections(entries)|
    decreases |entries| - i
  {
    if i < |entries| {
      assert entries[..i + 1][..i] == entries[..i];
      SectionsGrow(entries, i + 1);
    } else {
      assert entries[..i] == entries;
    }
  }

  /** `freelist_init`. */
  method FreelistInit(fm: FrameManager, start: array<nat>, end: array<nat>, num: nat, ghost sections: seq<Section>)
    requires fm.Shape() && num == |sections| < start.Length && num < end.Length
    requires forall k :: 0 <= k < num ==> start[k] == sections[k].start && end[k] == sections[k].end
    requires forall c :: c in sections ==> c.end <= 4096 * |fm.phys.mem| && c.end < 0x10_0000_0000_0000
    requires fm.ram as object != start && fm.ram as object != end
    modifies fm`top, fm`phys, fm.ram
    ensures fm.Shape() && fm.phys == FreeSections(old(fm.phys), sections)
  {
    var startAddr, endAddr := start[0], end[0];
    for i := 0 to num
      invariant fm.Shape() && |fm.phys.mem| == |old(fm.phys).mem|
      invariant startAddr == start[i] && endAddr == end[i]
      invariant FreeSections(fm.phys, sections[i..]) == FreeSections(old(fm.phys), sections)
    {
      assert sections[i..][0] == sections[i] && sections[i..][1..] == sections[i + 1..];
      assert sections[i] in sections;
      ghost var first := startAddr;
      ghost var before := fm.phys;
      while startAddr + 4096 <= endAddr
        invariant fm.Shape() && |fm.phys.mem| == |old(fm.phys).mem|
        invariant FreeRange(fm.phys, startAddr, endAddr) == FreeRange(before, first, endAddr)
      {
        fm.PmemFree(startAddr);
        startAddr := startAddr + 4096;
      }
      startAddr := start[i + 1];
      endAddr := end[i + 1];
    }
  }

  /** The loop of `mem_init` that separates start and end addresses. */
  method SplitAddresses(result: array<nat>, numRead: nat, start: array<nat>, end: array<nat>,
      ghost sections: seq<Section>)
    requires numRead == 2 * |sections| <= result.Length && numRead <= start.Length && numRead <= end.Length
    requires start != end && start != result && end != result
    requires forall k :: 0 <= k < |sections| ==>
        result[2 * k] == sections[k].start && result[2 * k + 1] == sections[k].end
    modifies start, end
    ensures forall k :: 0 <= k < |sections| ==> start[k] == sections[k].start && end[k] == sections[k].end
  {
    var startIndex, endIndex := 0, 0;
    for i := 0 to numRead
      invariant startIndex == (i + 1) / 2 && endIndex == i / 2
      invariant forall k :: 0 <= k < startIndex ==> start[k] == sections[k].start
      invariant forall k :: 0 <= k < endIndex ==> end[k] == sections[k].end
    {
      if i % 2 == 0 {
        assert result[2 * startIndex] == sections[startIndex].start;
        start[startIndex] := result[i];
        startIndex := startIndex + 1;
      } else {
        assert result[2 * endIndex + 1] == sections[endIndex].end;
        end[endIndex] := result[i];
        endIndex := endIndex + 1;
      }
    }
  }

  /** `mem_init`. At most five usable entries fit its arrays. */
  method MemInit(fm: FrameManager, entries: seq<MapEntry>, ghost r: Frame)
    requires fm.Shape() && fm.phys.top == 0 && Tree(fm.phys.mem, r, [], 3)
    requires 2 * |Sections(entries)| <= MAX_MEM_SECTIONS && Disjoint(Sections(entries))
    requires forall c :: c in Sections(entries) ==> c.end <= 4096 * |fm.phys.mem| && c.end < 0x10_0000_0000_0000
    requires forall c, x: Frame :: c in Sections(entries) && InSection(x, c) ==> NoTableAt(fm.phys.mem, r, x)
    modifies fm`top, fm`phys, fm.ram
    ensures fm.Shape()
    ensures Chain(fm.phys, SectionFrames(Sections(entries), [])) &&
        Tree(fm.phys.mem, r, SectionFrames(Sections(entries), []), 3)
    ensures forall x: Frame :: x in SectionFrames(Sections(entries), []) <==>
      exists e :: e in entries && e.kind == 1 && InSection(x, Section(e.base, e.base + e.length))
  {
    BootBuildsThePool(fm.phys, r, entries);
    var result := new nat[MAX_MEM_SECTIONS];
    var start := new nat[MAX_MEM_SECTIONS];
    var end := new nat[MAX_MEM_SECTIONS];
    var numRead := GetMemAddress(entries, result);
    ghost var sections := Sections(entries);
    SplitAddresses(result, numRead, start, end, sections);
    FreelistInit(fm, start, end, numRead / 2, sections);
  }
}
