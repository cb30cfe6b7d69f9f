/** Program images: the PT_LOAD region table that sys_execve records
    (kernel/sys.c) and the page fill that page_in_image performs on every fault
    (mm/memory.c).  The reference is the Program Header section of the TIS ELF
    Specification 1.2: a segment byte below p_filesz is the file's byte, and the
    bytes up to p_memsz are zero. */
module Executable {
  import opened Layout

  const PT_LOAD: nat := 1
  const MAX_HEADERS: nat := 16
  const NR_EXE_REGIONS: nat := 4

  // An ELF program header, fields as read by rd32.
  datatype Segment = Segment(ptype: nat, offset: nat, vaddr: nat, filesz: nat, memsz: nat, flags: nat)

  // struct exe_region: a page-aligned piece of the image and its place in the file.
  datatype Region = Region(va: nat, fileOff: nat, filesz: nat, memsz: nat, flags: nat)

  datatype Exe = Exe(regions: seq<Region>, file: seq<Byte>)

  function PageBase(a: nat): (b: nat)
    ensures b <= a < b + PAGE_SIZE
    ensures b % PAGE_SIZE == 0
  {
    a / PAGE_SIZE * PAGE_SIZE
  }

  // ---------------------------------------------------------------------
  // Building the region table
  // ---------------------------------------------------------------------

  datatype Trimmed = Ignore | Reject | Keep(seg: Segment)

  // What sys_execve does with one program header before recording it.
  function Trim(s: Segment): Trimmed {
    if s.ptype != PT_LOAD || s.memsz == 0 then Ignore
    else if Add32(s.vaddr, s.memsz) <= USER_PROG_START then Ignore
    else if s.vaddr < USER_PROG_START && USER_PROG_START - s.vaddr > PAGE_SIZE then Reject
    else
      var t :=
        if s.vaddr < USER_PROG_START then
          var gap := USER_PROG_START - s.vaddr;
          var skip := if gap > s.filesz then s.filesz else gap;
          s.(offset := s.offset + skip, vaddr := s.vaddr + skip, filesz := s.filesz - skip,
             memsz := s.memsz - skip)
        else s;
      if Add32(t.vaddr, t.filesz) > USER_PROG_END || Add32(t.vaddr, t.memsz) > USER_PROG_END
         || t.vaddr < USER_PROG_START
      then Reject
      else Keep(t)
  }

  function RegionOf(t: Segment): Region {
    var page := PageBase(t.vaddr);
    var back := t.vaddr - page;
    Region(page, if t.offset >= back then t.offset - back else 0, t.filesz + back, t.memsz + back, t.flags)
  }

  // The region table after the first n headers; None when execve fails.
  function RegionsOf(headers: seq<Segment>, n: nat): Option<seq<Region>>
    requires n <= |headers|
  {
    if n == 0 then Some([])
    else
      match RegionsOf(headers, n - 1)
      case None => None
      case Some(rs) =>
        match Trim(headers[n - 1])
        case Ignore => Some(rs)
        case Reject => None
        case Keep(t) =>
          if t.memsz == 0 then Some(rs)
          else if |rs| < NR_EXE_REGIONS then Some(rs + [RegionOf(t)])
          else None
  }

  function HeaderCount(headers: seq<Segment>): nat {
    if |headers| < MAX_HEADERS then |headers| else MAX_HEADERS
  }

  // The loop of sys_execve over the program headers.
  method BuildRegions(headers: seq<Segment>) returns (r: Option<seq<Region>>)
    ensures r == RegionsOf(headers, HeaderCount(headers))
    ensures r.Some? ==> |r.value| <= NR_EXE_REGIONS
  {
    var regions: seq<Region> := [];
    var i := 0;
    while i < |headers| && i < MAX_HEADERS
      invariant 0 <= i <= HeaderCount(headers)
      invariant RegionsOf(headers, i) == Some(regions)
      invariant |regions| <= NR_EXE_REGIONS
    {
      var trimmed := Trim(headers[i]);
      assert RegionsOf(headers, i + 1).None? ==> RegionsOf(headers, HeaderCount(headers)).None? by {
        NoneStays(headers, i + 1, HeaderCount(headers));
      }
      match trimmed {
        case Ignore =>
        case Reject => return None;
        case Keep(t) =>
          if t.memsz > 0 {
            if |regions| >= NR_EXE_REGIONS {
              return None;
            }
            regions := regions + [RegionOf(t)];
          }
      }
      i := i + 1;
    }
    r := Some(regions);
  }

  lemma {:induction false} NoneStays(headers: seq<Segment>, i: nat, n: nat)
    requires i <= n <= |headers|
    ensures RegionsOf(headers, i).None? ==> RegionsOf(headers, n).None?
  {
    if i < n {
      NoneStays(headers, i, n - 1);
    }
  }

  // ---------------------------------------------------------------------
  // Filling one page
  // ---------------------------------------------------------------------

  predicate InRegion(r: Region, va: nat) {
    r.va <= va < r.va + r.memsz
  }

  // The first region holding va, as page_in_image and is_clean_text search it.
  function FindRegion(regions: seq<Region>, va: nat): (r: Option<Region>)
    ensures r.Some? ==> r.value in regions && InRegion(r.value, va)
    ensures r.None? ==> forall q :: q in regions ==> !InRegion(q, va)
  {
    if regions == [] then None
    else if InRegion(regions[0], va) then Some(regions[0])
    else FindRegion(regions[1..], va)
  }

  // The bytes file_read delivers for `n` bytes at `off`: short at the end of the file.
  function ReadFile(file: seq<Byte>, off: nat, n: nat): (r: seq<Byte>)
    ensures |r| <= n
    ensures off + n <= |file| ==> |r| == n
    ensures forall k :: 0 <= k < |r| ==> off + k < |file| && r[k] == file[off + k]
  {
    if off >= |file| then []
    else if off + n <= |file| then file[off .. off + n]
    else file[off..]
  }

  // The frame page_in_image leaves behind; it starts as zeros from get_free_page.
  function PageIn(exe: Exe, va: nat): (page: Page) {
    match FindRegion(exe.regions, va)
    case None => ZeroPage()
    case Some(r) =>
      var delta := va - r.va;
      if delta >= r.filesz then ZeroPage()
      else
        var left := r.filesz - delta;
        var n := if left > PAGE_SIZE then PAGE_SIZE else left;
        var bytes := ReadFile(exe.file, r.fileOff + delta, n);
        Fill(bytes)
  }

  // is_clean_text: a page the reclaimer may drop because the file backs it.
  predicate IsCleanText(exe: Exe, va: nat) {
    match FindRegion(exe.regions, va)
    case None => false
    case Some(r) => r.flags / 2 % 2 == 0
  }

  // ---------------------------------------------------------------------
  // Lazy loading equals eager loading
  // ---------------------------------------------------------------------

  ghost predicate Loadable(s: Segment) {
    s.ptype == PT_LOAD && s.memsz > 0
  }

  // What the ELF specification asks of one loadable segment.
  ghost predicate WellFormed(s: Segment, file: seq<Byte>) {
    && s.filesz <= s.memsz
    && s.vaddr + s.memsz < WORD
    && s.offset + s.filesz <= |file|
    && s.offset % PAGE_SIZE == s.vaddr % PAGE_SIZE
  }

  // No page holds bytes of both segments.
  ghost predicate PagesApart(s: Segment, t: Segment)
    requires s.memsz > 0 && t.memsz > 0
  {
    || PageBase(s.vaddr + s.memsz - 1) < PageBase(t.vaddr)
    || PageBase(t.vaddr + t.memsz - 1) < PageBase(s.vaddr)
  }

  ghost predicate ValidHeaders(headers: seq<Segment>, file: seq<Byte>) {
    && (forall i :: 0 <= i < |headers| && Loadable(headers[i]) ==> WellFormed(headers[i], file))
    && (forall i, j :: 0 <= i < j < |headers| && Loadable(headers[i]) && Loadable(headers[j]) ==>
          PagesApart(headers[i], headers[j]))
  }

  // The byte the ELF specification places at address a of segment s.
  function SegmentByte(s: Segment, file: seq<Byte>, a: nat): Byte
    requires s.vaddr <= a
    requires s.offset + s.filesz <= |file|
  {
    if a - s.vaddr < s.filesz then file[s.offset + (a - s.vaddr)] else 0
  }

  // The byte a process finds at a after a fault on its page.
  function LazyByte(exe: Exe, a: nat): Byte {
    PageIn(exe, PageBase(a))[a - PageBase(a)]
  }

  // Trimming at USER_PROG_START keeps every byte that lies in the window.
  lemma TrimKeepsBytes(s: Segment, file: seq<Byte>, a: nat)
    requires Loadable(s) && WellFormed(s, file)
    requires s.vaddr <= a < s.vaddr + s.memsz && USER_PROG_START <= a
    requires !Trim(s).Reject?
    ensures Trim(s).Keep?
    ensures var t := Trim(s).seg;
            && Loadable(t) && WellFormed(t, file)
            && s.vaddr <= t.vaddr <= a
            && t.vaddr + t.memsz == s.vaddr + s.memsz
            && SegmentByte(t, file, a) == SegmentByte(s, file, a)
  {
    if s.vaddr < USER_PROG_START {
      var gap := USER_PROG_START - s.vaddr;
      var skip := if gap > s.filesz then s.filesz else gap;
      assert (s.offset + skip) % PAGE_SIZE == (s.vaddr + skip) % PAGE_SIZE;
    }
  }

  // One recorded region delivers the bytes of its own segment.
  lemma RegionDelivers(t: Segment, exe: Exe, a: nat)
    requires Loadable(t) && WellFormed(t, exe.file)
    requires t.vaddr <= a < t.vaddr + t.memsz
    requires FindRegion(exe.regions, PageBase(a)) == Some(RegionOf(t))
    ensures LazyByte(exe, a) == SegmentByte(t, exe.file, a)
  {
    var back := t.vaddr - PageBase(t.vaddr);
    assert t.offset >= back by {
      assert t.vaddr % PAGE_SIZE == back;
    }
  }

  // The segment a region was made from.
  ghost predicate MadeFrom(r: Region, headers: seq<Segment>, i: nat) {
    i < |headers| && Trim(headers[i]).Keep? && Trim(headers[i]).seg.memsz > 0 && r == RegionOf(Trim(headers[i]).seg)
  }

  // Every region has its segment.
  lemma {:induction false} RegionHasSegment(headers: seq<Segment>, n: nat, r: Region) returns (i: nat)
    requires n <= |headers|
    requires RegionsOf(headers, n).Some? && r in RegionsOf(headers, n).value
    ensures i < n && MadeFrom(r, headers, i)
    decreases n
  {
    if r in RegionsOf(headers, n - 1).value {
      i := RegionHasSegment(headers, n - 1, r);
    } else {
      i := n - 1;
    }
  }

  // Every header was accepted, and every kept segment has its region.
  lemma {:induction false} SegmentHasRegion(headers: seq<Segment>, n: nat, i: nat)
    requires i < n <= |headers|
    requires RegionsOf(headers, n).Some?
    ensures !Trim(headers[i]).Reject?
    ensures Trim(headers[i]).Keep? && Trim(headers[i]).seg.memsz > 0 ==>
              RegionOf(Trim(headers[i]).seg) in RegionsOf(headers, n).value
    decreases n
  {
    if i < n - 1 {
      SegmentHasRegion(headers, n - 1, i);
    }
  }

  lemma PageBaseMonotone(a: nat, b: nat)
    requires a <= b
    ensures PageBase(a) <= PageBase(b)
  {
  }

  // A kept segment ends where its header says and starts no lower.
  lemma TrimKeepsEnd(s: Segment, file: seq<Byte>)
    requires Loadable(s) ==> WellFormed(s, file)
    requires Trim(s).Keep?
    ensures Loadable(s)
    ensures s.vaddr <= Trim(s).seg.vaddr
    ensures Trim(s).seg.vaddr + Trim(s).seg.memsz == s.vaddr + s.memsz
  {
  }

  // A page inside a kept segment's region and inside s puts the two on one page.
  lemma SharedPage(s: Segment, t: Segment, file: seq<Byte>, a: nat)
    requires Loadable(s) && s.vaddr <= a < s.vaddr + s.memsz
    requires Loadable(t) && WellFormed(t, file) && Trim(t).Keep? && Trim(t).seg.memsz > 0
    requires InRegion(RegionOf(Trim(t).seg), PageBase(a))
    ensures !PagesApart(s, t) && !PagesApart(t, s)
  {
    TrimKeepsEnd(t, file);
    var k := Trim(t).seg;
    PageBaseMonotone(s.vaddr, a);
    PageBaseMonotone(a, s.vaddr + s.memsz - 1);
    PageBaseMonotone(t.vaddr, k.vaddr);
    PageBaseMonotone(PageBase(a), t.vaddr + t.memsz - 1);
    assert PageBase(PageBase(a)) == PageBase(a);
  }

  // The page of a can only be found in the region of a's own segment.
  lemma OnlyOwnRegion(headers: seq<Segment>, file: seq<Byte>, i: nat, j: nat, a: nat)
    requires i < |headers| && j < |headers|
    requires ValidHeaders(headers, file)
    requires Loadable(headers[i]) && headers[i].vaddr <= a < headers[i].vaddr + headers[i].memsz
    requires Trim(headers[j]).Keep? && Trim(headers[j]).seg.memsz > 0
    requires InRegion(RegionOf(Trim(headers[j]).seg), PageBase(a))
    ensures i == j
  {
    TrimKeepsEnd(headers[j], file);
    SharedPage(headers[i], headers[j], file, a);
  }

  // The page of a lies in the region recorded for a's segment.
  lemma OwnRegion(t: Segment, a: nat)
    requires t.vaddr <= a < t.vaddr + t.memsz
    ensures InRegion(RegionOf(t), PageBase(a))
  {
    assert PageBase(t.vaddr) <= PageBase(a);
  }

  /** Lazy image loading equals eager loading.  A fault on any page of the image,
      the first one or one after the page was dropped, finds at every address of
      every segment the byte the ELF specification puts there. */
  lemma LazyEqualsEager(headers: seq<Segment>, file: seq<Byte>, i: nat, a: nat)
    requires ValidHeaders(headers, file)
    requires RegionsOf(headers, HeaderCount(headers)).Some?
    requires i < HeaderCount(headers) && Loadable(headers[i])
    requires headers[i].vaddr <= a < headers[i].vaddr + headers[i].memsz && USER_PROG_START <= a
    ensures LazyByte(Exe(RegionsOf(headers, HeaderCount(headers)).value, file), a)
            == SegmentByte(headers[i], file, a)
  {
    var n := HeaderCount(headers);
    var regions := RegionsOf(headers, n).value;
    var exe := Exe(regions, file);
    SegmentHasRegion(headers, n, i);
    TrimKeepsBytes(headers[i], file, a);
    var t := Trim(headers[i]).seg;
    OwnRegion(t, a);
    var found := FindRegion(regions, PageBase(a));
    assert found.Some?;
    var j := RegionHasSegment(headers, n, found.value);
    OnlyOwnRegion(headers, file, i, j, a);
    RegionDelivers(t, exe, a);
  }
}
