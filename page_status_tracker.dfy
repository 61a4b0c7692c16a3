/**
 * Page-guard tracking state of one mapped memory region (util/page_status_tracker.h).
 *
 * A tracker holds one status byte per page in each of three vectors: pages
 * written since the last checkpoint, pages read since the last checkpoint, and
 * pages that were loaded (captured) before. The three flags of a page are
 * independent of each other and of every other page's flags.
 */
module PageTracking {

  /** uint8_t, the element type of the three status vectors. */
  newtype uint8 = x: int | 0 <= x < 0x100

  /** The byte a setter stores for a flag: `value ? 1 : 0`. */
  function FlagByte(value: bool): (b: uint8)
    ensures b == 0 || b == 1
    ensures (b == 1) == value
  {
    if value then 1 else 0
  }

  /** Every byte of a status vector is 0 or 1. */
  predicate IsFlagVector(v: seq<uint8>)
  {
    forall i :: 0 <= i < |v| ==> v[i] == 0 || v[i] == 1
  }

  /**
   * The value held by a tracker: its three status vectors. The class below
   * keeps these vectors in arrays; this datatype is the specification its
   * methods are proved against.
   */
  datatype PageStatus = PageStatus(activeWrites: seq<uint8>, activeReads: seq<uint8>, pageLoaded: seq<uint8>)
  {
    /** The three vectors have one length, and every stored byte is 0 or 1. */
    predicate Valid()
    {
      && |activeReads| == |activeWrites|
      && |pageLoaded| == |activeWrites|
      && IsFlagVector(activeWrites)
      && IsFlagVector(activeReads)
      && IsFlagVector(pageLoaded)
    }

    function PageCount(): (n: nat)
    {
      |activeWrites|
    }

    /** The state right after construction with `page_count` pages. */
    static function Create(pageCount: nat): (r: PageStatus)
      ensures r.Valid() && r.PageCount() == pageCount
      ensures forall i :: 0 <= i < pageCount ==> !r.IsActiveWriteBlock(i)
      ensures forall i :: 0 <= i < pageCount ==> !r.IsActiveReadBlock(i)
      ensures forall i :: 0 <= i < pageCount ==> !r.IsBlockLoaded(i)
    {
      PageStatus(seq(pageCount, _ => 0), seq(pageCount, _ => 0), seq(pageCount, _ => 0))
    }

    predicate IsActiveWriteBlock(index: nat)
      requires index < |activeWrites|
    {
      activeWrites[index] == 1
    }

    predicate IsActiveReadBlock(index: nat)
      requires index < |activeReads|
    {
      activeReads[index] == 1
    }

    predicate IsBlockLoaded(index: nat)
      requires index < |pageLoaded|
    {
      pageLoaded[index] == 1
    }

    /** Records the write flag of one page; nothing else changes. */
    function SetActiveWriteBlock(index: nat, value: bool): (r: PageStatus)
      requires index < |activeWrites|
      ensures |r.activeWrites| == |activeWrites|
      ensures r.IsActiveWriteBlock(index) == value
      ensures forall j :: 0 <= j < |activeWrites| && j != index ==> r.activeWrites[j] == activeWrites[j]
      ensures r.activeReads == activeReads && r.pageLoaded == pageLoaded
      ensures Valid() ==> r.Valid()
    {
      this.(activeWrites := activeWrites[index := FlagByte(value)])
    }

    /** Records the read flag of one page; nothing else changes. */
    function SetActiveReadBlock(index: nat, value: bool): (r: PageStatus)
      requires index < |activeReads|
      ensures |r.activeReads| == |activeReads|
      ensures r.IsActiveReadBlock(index) == value
      ensures forall j :: 0 <= j < |activeReads| && j != index ==> r.activeReads[j] == activeReads[j]
      ensures r.activeWrites == activeWrites && r.pageLoaded == pageLoaded
      ensures Valid() ==> r.Valid()
    {
      this.(activeReads := activeReads[index := FlagByte(value)])
    }

    /** Records the loaded flag of one page; nothing else changes. */
    function SetBlockLoaded(index: nat, value: bool): (r: PageStatus)
      requires index < |pageLoaded|
      ensures |r.pageLoaded| == |pageLoaded|
      ensures r.IsBlockLoaded(index) == value
      ensures forall j :: 0 <= j < |pageLoaded| && j != index ==> r.pageLoaded[j] == pageLoaded[j]
      ensures r.activeWrites == activeWrites && r.activeReads == activeReads
      ensures Valid() ==> r.Valid()
    {
      this.(pageLoaded := pageLoaded[index := FlagByte(value)])
    }
  }

  /** Setting a flag twice to the same value is the same as setting it once. */
  lemma SetTwiceIsSetOnce(s: PageStatus, index: nat, value: bool)
    requires s.Valid() && index < s.PageCount()
    ensures s.SetActiveWriteBlock(index, value).SetActiveWriteBlock(index, value) == s.SetActiveWriteBlock(index, value)
    ensures s.SetActiveReadBlock(index, value).SetActiveReadBlock(index, value) == s.SetActiveReadBlock(index, value)
    ensures s.SetBlockLoaded(index, value).SetBlockLoaded(index, value) == s.SetBlockLoaded(index, value)
  {
  }

  /**
   * Setting a flag to the value it already reports leaves the state as it was.
   * This rests on every stored byte being 0 or 1: with a byte of 2 the getter
   * reports false, and setting false would store 0.
   */
  lemma SetToCurrentIsNoOp(s: PageStatus, index: nat)
    requires s.Valid() && index < s.PageCount()
    ensures s.SetActiveWriteBlock(index, s.IsActiveWriteBlock(index)) == s
    ensures s.SetActiveReadBlock(index, s.IsActiveReadBlock(index)) == s
    ensures s.SetBlockLoaded(index, s.IsBlockLoaded(index)) == s
  {
  }

  /**
   * Page independence as a caller observes it through the getters: setting
   * the write flag of page `index` leaves that page's read and loaded flags,
   * and all three flags of every other page, as they were.
   */
  lemma SetWriteLeavesOtherQueries(s: PageStatus, index: nat, value: bool, other: nat)
    requires s.Valid() && index < s.PageCount() && other < s.PageCount()
    ensures var r := s.SetActiveWriteBlock(index, value);
      && (other != index ==> r.IsActiveWriteBlock(other) == s.IsActiveWriteBlock(other))
      && r.IsActiveReadBlock(other) == s.IsActiveReadBlock(other)
      && r.IsBlockLoaded(other) == s.IsBlockLoaded(other)
  {
  }

  /** The read-flag counterpart of SetWriteLeavesOtherQueries. */
  lemma SetReadLeavesOtherQueries(s: PageStatus, index: nat, value: bool, other: nat)
    requires s.Valid() && index < s.PageCount() && other < s.PageCount()
    ensures var r := s.SetActiveReadBlock(index, value);
      && (other != index ==> r.IsActiveReadBlock(other) == s.IsActiveReadBlock(other))
      && r.IsActiveWriteBlock(other) == s.IsActiveWriteBlock(other)
      && r.IsBlockLoaded(other) == s.IsBlockLoaded(other)
  {
  }

  /** The loaded-flag counterpart of SetWriteLeavesOtherQueries. */
  lemma SetLoadedLeavesOtherQueries(s: PageStatus, index: nat, value: bool, other: nat)
    requires s.Valid() && index < s.PageCount() && other < s.PageCount()
    ensures var r := s.SetBlockLoaded(index, value);
      && (other != index ==> r.IsBlockLoaded(other) == s.IsBlockLoaded(other))
      && r.IsActiveWriteBlock(other) == s.IsActiveWriteBlock(other)
      && r.IsActiveReadBlock(other) == s.IsActiveReadBlock(other)
  {
  }

  /** The three flags are orthogonal: setters of different flags commute. */
  lemma SettersOfDifferentFlagsCommute(s: PageStatus, i: nat, j: nat, v: bool, w: bool)
    requires s.Valid() && i < s.PageCount() && j < s.PageCount()
    ensures s.SetActiveWriteBlock(i, v).SetActiveReadBlock(j, w) == s.SetActiveReadBlock(j, w).SetActiveWriteBlock(i, v)
    ensures s.SetActiveWriteBlock(i, v).SetBlockLoaded(j, w) == s.SetBlockLoaded(j, w).SetActiveWriteBlock(i, v)
    ensures s.SetActiveReadBlock(i, v).SetBlockLoaded(j, w) == s.SetBlockLoaded(j, w).SetActiveReadBlock(i, v)
  {
  }

  /**
   * PageStatusTracker: three byte vectors filled by the constructor and
   * updated in place by the setters. The vectors are never replaced or
   * resized, so the arrays are constant fields and their lengths stay the
   * constructor's page count.
   */
  class PageStatusTracker {
    const activeWrites: array<uint8>
    const activeReads: array<uint8>
    const pageLoaded: array<uint8>

    /** The abstract state: the contents of the three vectors. */
    ghost function State(): PageStatus
      reads activeWrites, activeReads, pageLoaded
    {
      PageStatus(activeWrites[..], activeReads[..], pageLoaded[..])
    }

    /** The vectors are three separate objects and State() is valid. */
    ghost predicate Valid()
      reads activeWrites, activeReads, pageLoaded
    {
      && activeWrites != activeReads
      && activeWrites != pageLoaded
      && activeReads != pageLoaded
      && State().Valid()
    }

    function PageCount(): (n: nat)
    {
      activeWrites.Length
    }

    constructor (pageCount: nat)
      ensures Valid() && PageCount() == pageCount
      ensures fresh(activeWrites) && fresh(activeReads) && fresh(pageLoaded)
      ensures State() == PageStatus.Create(pageCount)
    {
      activeWrites := new uint8[pageCount](_ => 0);
      activeReads := new uint8[pageCount](_ => 0);
      pageLoaded := new uint8[pageCount](_ => 0);
      new;
      assert activeWrites[..] == seq(pageCount, _ => 0);
      assert activeReads[..] == seq(pageCount, _ => 0);
      assert pageLoaded[..] == seq(pageCount, _ => 0);
    }

    method IsActiveWriteBlock(index: nat) returns (r: bool)
      requires Valid() && index < PageCount()
      ensures r == State().IsActiveWriteBlock(index)
    {
      r := activeWrites[index] == 1;
    }

    method IsActiveReadBlock(index: nat) returns (r: bool)
      requires Valid() && index < PageCount()
      ensures r == State().IsActiveReadBlock(index)
    {
      r := activeReads[index] == 1;
    }

    method IsBlockLoaded(index: nat) returns (r: bool)
      requires Valid() && index < PageCount()
      ensures r == State().IsBlockLoaded(index)
    {
      r := pageLoaded[index] == 1;
    }

    method SetActiveWriteBlock(index: nat, value: bool)
      requires Valid() && index < PageCount()
      modifies activeWrites
      ensures Valid()
      ensures State() == old(State()).SetActiveWriteBlock(index, value)
    {
      activeWrites[index] := FlagByte(value);
    }

    method SetActiveReadBlock(index: nat, value: bool)
      requires Valid() && index < PageCount()
      modifies activeReads
      ensures Valid()
      ensures State() == old(State()).SetActiveReadBlock(index, value)
    {
      activeReads[index] := FlagByte(value);
    }

    method SetBlockLoaded(index: nat, value: bool)
      requires Valid() && index < PageCount()
      modifies pageLoaded
      ensures Valid()
      ensures State() == old(State()).SetBlockLoaded(index, value)
    {
      pageLoaded[index] := FlagByte(value);
    }
  }

  /**
   * A client run: a fresh tracker reports every page clean, a set flag reads
   * back, and a neighbouring page and the other flags stay clean.
   */
  method TrackerUsage(pageCount: nat, page: nat) returns (written: bool, readOfWritten: bool, neighbour: bool)
    requires page + 1 < pageCount
    ensures written && !readOfWritten && !neighbour
  {
    var t := new PageStatusTracker(pageCount);
    t.SetActiveWriteBlock(page, true);
    written := t.IsActiveWriteBlock(page);
    readOfWritten := t.IsActiveReadBlock(page);
    neighbour := t.IsActiveWriteBlock(page + 1);
  }
}
