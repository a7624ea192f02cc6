/**
 The system event log of one node: a ring of records cached in memory, a copy of
 header and records in a file, reservation IDs, and reading by record ID
 (IPMI v2.0 sections 31.4, 31.5, 31.6 and 31.9).
 */
module Sel {
  import opened Rings
  import opened Wrappers

  const RECORDS_MAX := 128
  const ELEMS_MAX := RECORDS_MAX + 1
  const RSVID_MIN := 0x01
  const RSVID_MAX := 0xFFFE
  const RECID_FIRST := 0x0000
  const RECID_LAST := 0xFFFF
  const UNIFIED := 0xFB   // record type stamped again on its way to the file

  type Record = r: seq<byte> | |r| == 16 witness seq(16, _ => 0)
  type Stamp = t: seq<byte> | |t| == 4 witness [0, 0, 0, 0]

  /** Where the log begins and ends in the ring. */
  datatype Header = Header(begin: nat, end: nat)

  predicate ValidHeader(h: Header) {
    h.begin < ELEMS_MAX && h.end < ELEMS_MAX
  }

  function Next(i: nat): nat
    requires i < ELEMS_MAX
  {
    if i + 1 >= ELEMS_MAX then 0 else i + 1
  }

  function NumEntries(h: Header): int {
    if h.begin <= h.end then h.end - h.begin else h.end + (RECORDS_MAX - h.begin + 1)
  }

  /** The slot of the k-th record of the log. */
  function SlotOf(h: Header, k: nat): nat {
    (h.begin + k) % 129
  }

  /** The record's own time stamp, for the types that carry one. */
  function Stamped(r: Record, now: Stamp): Record {
    if r[2] < 0xE0 then r[..3] + now + r[7..] else r
  }

  /** What reaches the file: the unified type is stamped once more on the way. */
  function Filed(r: Record, now: Stamp): Record {
    if r[2] == UNIFIED then r[..4] + now + r[8..] else r
  }

  /** Bytes 3 to 6 of a record of a type below 0xE0 are the time it was added. */
  lemma StampedBytes(r: Record, now: Stamp, i: nat)
    requires i < 16
    ensures Stamped(r, now)[i] == if r[2] < 0xE0 && 3 <= i < 7 then now[i - 3] else r[i]
  {
  }

  /** Bytes 4 to 7 of a record of type 0xFB are the time it was filed. */
  lemma FiledBytes(r: Record, now: Stamp, i: nat)
    requires i < 16
    ensures Filed(r, now)[i] == if r[2] == 0xFB && 4 <= i < 8 then now[i - 4] else r[i]
  {
  }

  lemma CountIsLength(data: seq<Record>, h: Header)
    requires |data| == ELEMS_MAX && ValidHeader(h)
    ensures NumEntries(h) == |Ring(data, h.begin, h.end)|
  {
  }

  // ----- Reading -----

  /** sel_get_entry: the record and the next record ID, or None for an error. */
  function GetEntry(data: seq<Record>, h: Header, id: int): Option<(Record, int)>
    requires |data| == ELEMS_MAX && ValidHeader(h)
  {
    var index :=
      if id == RECID_FIRST then h.begin
      else if id == RECID_LAST then (if h.end != 0 then h.end - 1 else RECORDS_MAX)
      else id;
    if NumEntries(h) == 0 then None
    else if index < 0 || index > RECORDS_MAX then None
    else if h.begin < h.end && (index < h.begin || index >= h.end) then None
    else if h.begin > h.end && index >= h.end && index < h.begin then None
    else
      var next := if id + 1 > RECORDS_MAX then 0 else id + 1;
      Some((data[index], if next == h.end then RECID_LAST else next))
  }

  class SelNode {
    var hdr: Header
    const data: array<Record>
    var rsvId: nat
    var fileHdr: Header
    const fileData: array<Record>   // as long as the ring; short reads are not modelled

    /** sel_node_init without a file. */
    constructor ()
      ensures Valid() && Contents() == [] && FileLog() == [] && hdr == fileHdr && rsvId == 1
      ensures fresh(data) && fresh(fileData)
    {
      hdr := Header(0, 0);
      fileHdr := Header(0, 0);
      data := new Record[ELEMS_MAX](_ => seq(16, _ => 0));
      fileData := new Record[ELEMS_MAX](_ => seq(16, _ => 0));
      rsvId := 1;
    }

    ghost predicate Valid()
      reads this
    {
      && data.Length == ELEMS_MAX && fileData.Length == ELEMS_MAX && data != fileData
      && ValidHeader(hdr) && ValidHeader(fileHdr)
    }

    ghost function Contents(): (s: seq<Record>)
      requires Valid()
      reads this, data
      ensures |s| <= RECORDS_MAX
    {
      Ring(data[..], hdr.begin, hdr.end)
    }

    /** The log a restart would load. */
    ghost function FileLog(): seq<Record>
      requires Valid()
      reads this, fileData
    {
      Ring(fileData[..], fileHdr.begin, fileHdr.end)
    }

    /** sel_node_init with the file present. */
    method Reload()
      requires Valid()
      modifies this`hdr, data
      ensures Valid() && hdr == fileHdr && Contents() == FileLog()
    {
      hdr := fileHdr;
      forall i | 0 <= i < ELEMS_MAX {
        data[i] := fileData[i];
      }
      assert data[..] == fileData[..];
    }

    /** sel_get_entry: the two special IDs read the ends of the log, any other ID the
        record in the slot it names, if that slot is part of the log. */
    method Read(id: int) returns (r: Option<(Record, int)>)
      requires Valid()
      ensures r == GetEntry(data[..], hdr, id)
      ensures id == 0x0000 ==> (r.Some? <==> Contents() != []) && (r.Some? ==> r.value.0 == Contents()[0])
      ensures id == 0xFFFF ==>
                (r.Some? <==> Contents() != []) && (r.Some? ==> r.value.0 == Contents()[|Contents()| - 1])
      ensures id != 0x0000 && id != 0xFFFF ==>
                (r.Some? <==> exists k :: 0 <= k < |Contents()| && SlotOf(hdr, k) == id)
      ensures forall k :: 0 <= k < |Contents()| && SlotOf(hdr, k) == id && id != 0x0000 ==>
                r.Some? && r.value.0 == Contents()[k]
      ensures r.Some? ==>
                var next := if id >= 128 then 0 else id + 1;
                r.value.1 == if next == hdr.end then 0xFFFF else next
    {
      ghost var s := Contents();
      CountIsLength(data[..], hdr);
      SpecialIds(data[..], hdr);
      if id != RECID_FIRST && id != RECID_LAST {
        DirectIdIff(data[..], hdr, id);
      }
      var index := id;
      if id == RECID_FIRST {
        index := hdr.begin;
      } else if id == RECID_LAST {
        index := if hdr.end != 0 then hdr.end - 1 else RECORDS_MAX;
      }
      if NumEntries(hdr) == 0 {
        return None;
      }
      if index < 0 || index > RECORDS_MAX {
        return None;
      }
      if hdr.begin < hdr.end && (index < hdr.begin || index >= hdr.end) {
        return None;
      }
      if hdr.begin > hdr.end && index >= hdr.end && index < hdr.begin {
        return None;
      }
      var next := id + 1;
      if next > RECORDS_MAX {
        next := 0;
      }
      if next == hdr.end {
        next := RECID_LAST;
      }
      return Some((data[index], next));
    }

    /** sel_add_entry.  When a store fails the call reports it; the file then
        still holds the log it held before. */
    method AddEntry(msg: Record, now: Stamp, dataStored: bool, hdrStored: bool) returns (ret: int, recId: int)
      requires Valid()
      modifies this`hdr, this`fileHdr, data, fileData
      ensures Valid()
      ensures ret == if dataStored && hdrStored then 0 else -1
      ensures recId == old(hdr.end) + 1
      ensures Contents() == if dataStored then LastN(old(Contents()) + [Stamped(msg, now)], RECORDS_MAX)
                            else LastN(old(Contents()), RECORDS_MAX - 1)
      ensures dataStored ==> hdr.end == Next(old(hdr.end))
      ensures ret == 0 ==> fileHdr == hdr
      ensures ret == 0 && old(fileHdr == hdr) ==>
                FileLog() == LastN(old(FileLog()) + [Filed(Stamped(msg, now), now)], RECORDS_MAX)
      ensures ret != 0 && old(fileHdr == hdr) ==> FileLog() == old(FileLog())
    {
      var record := Stamped(msg, now);
      var filed := Filed(record, now);
      ghost var slot, was, fileWas := hdr.end, data[..], fileData[..];
      LogAdd(was, hdr, record);
      LogAdd(fileWas, hdr, filed);
      if NumEntries(hdr) == RECORDS_MAX {
        hdr := hdr.(begin := Next(hdr.begin));
      }
      data[hdr.end] := record;
      assert data[..] == was[slot := record];
      recId := hdr.end + 1;
      if !dataStored {
        return -1, recId;
      }
      fileData[recId - 1] := filed;
      assert fileData[..] == fileWas[slot := filed];
      hdr := hdr.(end := Next(hdr.end));
      if !hdrStored {
        return -1, recId;
      }
      fileHdr := hdr;
      return 0, recId;
    }

    /** sel_erase */
    method Erase(rsv: int, hdrStored: bool) returns (ret: int)
      requires Valid()
      modifies this`hdr, this`fileHdr
      ensures Valid()
      ensures rsv != rsvId ==> ret == -1 && hdr == old(hdr) && fileHdr == old(fileHdr)
      ensures rsv == rsvId ==> Contents() == [] && hdr == Header(0, 0) && ret == (if hdrStored then 0 else -1)
      ensures rsv == rsvId ==> fileHdr == (if hdrStored then hdr else old(fileHdr))
    {
      if rsv != rsvId {
        return -1;
      }
      hdr := Header(0, 0);
      if !hdrStored {
        return -1;
      }
      fileHdr := hdr;
      return 0;
    }

    /** sel_rsv_id: a reservation ID is never 0 or 0xFFFF and differs from the one before. */
    method ReserveId() returns (id: nat)
      requires rsvId <= RSVID_MAX
      modifies this`rsvId
      ensures id == rsvId == if old(rsvId) == 0xFFFE then 1 else old(rsvId) + 1
      ensures 1 <= rsvId <= 0xFFFE
    {
      var was := rsvId;
      rsvId := rsvId + 1;
      if was == RSVID_MAX {
        rsvId := RSVID_MIN;
      }
      return rsvId;
    }
  }

  /** Where a log begins once there is room for another record. */
  function BeginForAdd(h: Header): nat
    requires ValidHeader(h)
  {
    if NumEntries(h) == RECORDS_MAX then Next(h.begin) else h.begin
  }

  /** The slot an addition writes lies outside the log: the old header goes on
      describing the old log, and the new one describes it with the record added
      and the oldest dropped if there were 128. */
  lemma LogAdd(data: seq<Record>, h: Header, r: Record)
    requires |data| == ELEMS_MAX && ValidHeader(h)
    ensures var s := Ring(data, h.begin, h.end);
            && Ring(data[h.end := r], h.begin, h.end) == s
            && Ring(data[h.end := r], BeginForAdd(h), h.end) == LastN(s, RECORDS_MAX - 1)
            && Ring(data[h.end := r], BeginForAdd(h), Next(h.end)) == LastN(s + [r], RECORDS_MAX)
  {
    RingWriteBack(data, BeginForAdd(h), h.end, r);
    Wrap(h.end + 1, ELEMS_MAX);
  }

  // ----- Reading by record ID -----

  /** A record ID that is not one of the two special ones is accepted exactly
      when its slot holds a record of the log, and reads that record. */
  lemma DirectIdIff(data: seq<Record>, h: Header, id: int)
    requires |data| == ELEMS_MAX && ValidHeader(h) && id != RECID_FIRST && id != RECID_LAST
    ensures var s := Ring(data, h.begin, h.end);
            && (GetEntry(data, h, id).Some? <==> exists k :: 0 <= k < |s| && SlotOf(h, k) == id)
            && forall k :: 0 <= k < |s| && SlotOf(h, k) == id ==> GetEntry(data, h, id).value.0 == s[k]
  {
    var s := Ring(data, h.begin, h.end);
    if GetEntry(data, h, id).Some? {
      var k := if id >= h.begin then id - h.begin else ELEMS_MAX - h.begin + id;
      assert SlotOf(h, k) == id;
    }
    forall k | 0 <= k < |s| && SlotOf(h, k) == id
      ensures GetEntry(data, h, id).Some? && GetEntry(data, h, id).value.0 == s[k]
    {
      assert h.begin + k == if id >= h.begin then id else id + ELEMS_MAX;
    }
  }

  /** The two special IDs read the oldest and the newest record. */
  lemma SpecialIds(data: seq<Record>, h: Header)
    requires |data| == ELEMS_MAX && ValidHeader(h)
    ensures var s := Ring(data, h.begin, h.end);
            if s == [] then GetEntry(data, h, RECID_FIRST).None? && GetEntry(data, h, RECID_LAST).None?
            else
              && GetEntry(data, h, RECID_FIRST).Some? && GetEntry(data, h, RECID_FIRST).value.0 == s[0]
              && GetEntry(data, h, RECID_LAST).Some? && GetEntry(data, h, RECID_LAST).value.0 == s[|s| - 1]
  {
    CountIsLength(data, h);
  }

  /** Reading from `id` on, following the returned IDs for at most `fuel` records;
      the flag says whether the walk ended at the last-record ID. */
  function Walk(data: seq<Record>, h: Header, id: int, fuel: nat): (seq<Record>, bool)
    requires |data| == ELEMS_MAX && ValidHeader(h)
    decreases fuel
  {
    if fuel == 0 then ([], false)
    else
      match GetEntry(data, h, id)
      case None => ([], false)
      case Some((r, next)) =>
        if next == RECID_LAST then ([r], true)
        else
          var (rs, done) := Walk(data, h, next, fuel - 1);
          ([r] + rs, done)
  }

  lemma {:induction false} WalkFrom(data: seq<Record>, h: Header, k: nat, fuel: nat)
    requires |data| == ELEMS_MAX && ValidHeader(h) && h.begin == 0 && k < h.end && fuel >= h.end - k
    ensures Walk(data, h, k, fuel) == (Ring(data, h.begin, h.end)[k..], true)
    decreases h.end - k
  {
    var s := Ring(data, h.begin, h.end);
    assert s[k] == data[k];
    if k + 1 < h.end {
      WalkFrom(data, h, k + 1, fuel - 1);
      assert s[k..] == [s[k]] + s[k + 1..];
    } else {
      assert s[k..] == [s[k]];
    }
  }

  /** From a slot other than the first-record ID a walk gives the records of the slots
      up to the end, one each. */
  lemma {:induction false} WalkLength(data: seq<Record>, h: Header, k: nat, fuel: nat)
    requires |data| == ELEMS_MAX && ValidHeader(h) && 0 < k < h.end && (h.begin <= k || h.end < h.begin)
    ensures Walk(data, h, k, fuel).1 ==> |Walk(data, h, k, fuel).0| == h.end - k
    ensures |Walk(data, h, k, fuel).0| <= fuel
    decreases fuel
  {
    if fuel > 0 && k + 1 < h.end {
      WalkLength(data, h, k + 1, fuel - 1);
    }
  }

  /** Without end in sight ahead a walk from a slot runs on to the highest slot. */
  lemma {:induction false} WalkToTop(data: seq<Record>, h: Header, k: nat, fuel: nat)
    requires |data| == ELEMS_MAX && ValidHeader(h) && h.end == 0 && 0 < h.begin <= k < ELEMS_MAX
    ensures Walk(data, h, k, fuel).1 ==> |Walk(data, h, k, fuel).0| == ELEMS_MAX - k
    decreases fuel
  {
    if fuel > 0 && k < RECORDS_MAX {
      WalkToTop(data, h, k + 1, fuel - 1);
    }
  }

  /** Walking from the first-record ID returns every entry once, in order, and ends at
      the last-record ID, exactly if the log begins at slot 0. */
  lemma WalkReadsAllIff(data: seq<Record>, h: Header)
    requires |data| == ELEMS_MAX && ValidHeader(h) && Ring(data, h.begin, h.end) != []
    ensures Walk(data, h, 0x0000, 128) == (Ring(data, h.begin, h.end), true) <==> h.begin == 0
  {
    var s := Ring(data, h.begin, h.end);
    CountIsLength(data, h);
    if h.begin == 0 {
      WalkFrom(data, h, 0, RECORDS_MAX);
      assert s[0..] == s;
    } else if h.end > 1 && (h.begin <= 1 || h.end < h.begin) {
      WalkLength(data, h, 1, RECORDS_MAX - 1);
    } else if h.end == 0 && h.begin == 1 {
      WalkToTop(data, h, 1, RECORDS_MAX - 1);
    }
  }

  /** The first read continues at the slot after the oldest record exactly when
      the log still begins at slot 0. */
  lemma FirstContinuesIff(data: seq<Record>, h: Header)
    requires |data| == ELEMS_MAX && ValidHeader(h) && NumEntries(h) >= 2
    ensures GetEntry(data, h, RECID_FIRST).Some?
    ensures GetEntry(data, h, RECID_FIRST).value.1 == Next(h.begin) <==> h.begin == 0
  {
  }

  /** The ID an addition returns names the slot behind the new record: it is never
      accepted.  One less reads the record back, unless that is the first-record ID. */
  lemma AddedId(data: seq<Record>, was: Header, h: Header)
    requires |data| == ELEMS_MAX && ValidHeader(was) && ValidHeader(h)
    requires h.end == Next(was.end) && NumEntries(h) > 0
    ensures GetEntry(data, h, was.end + 1).None?
    ensures var s := Ring(data, h.begin, h.end);
            was.end != RECID_FIRST ==>
              GetEntry(data, h, was.end).Some? && GetEntry(data, h, was.end).value.0 == s[|s| - 1]
  {
    CountIsLength(data, h);
  }

  // ----- Runs -----

  datatype Op =
    | Add(msg: Record, now: Stamp)
    | EraseAll

  /** The additions since the last erase. */
  function AddsSinceErase(ops: seq<Op>): seq<Op> {
    if ops == [] || ops[|ops| - 1].EraseAll? then []
    else AddsSinceErase(ops[..|ops| - 1]) + [ops[|ops| - 1]]
  }

  /** The entries since the last erase, as kept in memory. */
  function SinceErase(ops: seq<Op>): seq<Record> {
    if ops == [] then []
    else
      match ops[|ops| - 1]
      case Add(m, t) => SinceErase(ops[..|ops| - 1]) + [Stamped(m, t)]
      case EraseAll => []
  }

  /** The same entries as they reach the file. */
  function FiledSinceErase(ops: seq<Op>): seq<Record> {
    if ops == [] then []
    else
      match ops[|ops| - 1]
      case Add(m, t) => FiledSinceErase(ops[..|ops| - 1]) + [Filed(Stamped(m, t), t)]
      case EraseAll => []
  }

  /** One node driven by a sequence of additions and reserved erasures whose stores
      succeed: memory holds the last 128 entries since the last erase, and a restart
      loads the last 128 as they reached the file. */
  method Replay(ops: seq<Op>) returns (node: SelNode)
    ensures node.Valid() && node.Contents() == LastN(SinceErase(ops), 128)
    ensures node.FileLog() == LastN(FiledSinceErase(ops), 128)
  {
    node := new SelNode();
    assert ops[..0] == [];
    for k := 0 to |ops|
      invariant node.Valid() && fresh(node) && fresh(node.data) && fresh(node.fileData)
      invariant node.hdr == node.fileHdr && node.rsvId <= RSVID_MAX
      invariant node.Contents() == LastN(SinceErase(ops[..k]), RECORDS_MAX)
      invariant node.FileLog() == LastN(FiledSinceErase(ops[..k]), RECORDS_MAX)
    {
      assert ops[..k + 1][..k] == ops[..k] && ops[..k + 1][k] == ops[k];
      Perform(node, ops[k], SinceErase(ops[..k]), FiledSinceErase(ops[..k]));
    }
    assert ops[..|ops|] == ops;
  }

  method Perform(node: SelNode, op: Op, ghost before: seq<Record>, ghost filedBefore: seq<Record>)
    requires node.Valid() && node.hdr == node.fileHdr && node.rsvId <= RSVID_MAX
    requires node.Contents() == LastN(before, RECORDS_MAX) && node.FileLog() == LastN(filedBefore, RECORDS_MAX)
    modifies node`hdr, node`fileHdr, node`rsvId, node.data, node.fileData
    ensures node.Valid() && node.hdr == node.fileHdr && node.rsvId <= RSVID_MAX
    ensures node.Contents() == if op.Add? then LastN(before + [Stamped(op.msg, op.now)], RECORDS_MAX) else []
    ensures node.FileLog() ==
            if op.Add? then LastN(filedBefore + [Filed(Stamped(op.msg, op.now), op.now)], RECORDS_MAX) else []
  {
    match op {
      case Add(m, t) =>
        LastNAgain(before, Stamped(m, t), RECORDS_MAX);
        LastNAgain(filedBefore, Filed(Stamped(m, t), t), RECORDS_MAX);
        var _, _ := node.AddEntry(m, t, true, true);
      case EraseAll =>
        var id := node.ReserveId();
        var _ := node.Erase(id, true);
    }
  }

  /** The file's stamp leaves the record as it is in memory. */
  predicate FiledAsKept(op: Op) {
    op.Add? && (op.msg[2] != UNIFIED || op.msg[4..8] == op.now)
  }

  lemma {:induction false} EntriesOfAdds(ops: seq<Op>)
    ensures var (adds, kept, filed) := (AddsSinceErase(ops), SinceErase(ops), FiledSinceErase(ops));
            && |adds| == |kept| == |filed|
            && forall i :: 0 <= i < |adds| ==>
                 adds[i].Add? && kept[i] == Stamped(adds[i].msg, adds[i].now) && filed[i] == Filed(kept[i], adds[i].now)
  {
    if ops != [] {
      EntriesOfAdds(ops[..|ops| - 1]);
    }
  }

  /** So a restart loads the log that is in memory exactly if every entry that is left
      is of another type than 0xFB or came with that very stamp. */
  lemma FileAgreesIff(ops: seq<Op>)
    ensures LastN(FiledSinceErase(ops), RECORDS_MAX) == LastN(SinceErase(ops), RECORDS_MAX) <==>
            forall op :: op in LastN(AddsSinceErase(ops), RECORDS_MAX) ==> FiledAsKept(op)
  {
    EntriesOfAdds(ops);
    var adds := LastN(AddsSinceErase(ops), RECORDS_MAX);
    var kept, filed := LastN(SinceErase(ops), RECORDS_MAX), LastN(FiledSinceErase(ops), RECORDS_MAX);
    forall i | 0 <= i < |adds| ensures FiledAsKept(adds[i]) <==> filed[i] == kept[i] {
    }
    if filed == kept {
      forall op | op in adds ensures FiledAsKept(op) {
        var i :| 0 <= i < |adds| && adds[i] == op;
        assert filed[i] == kept[i];
      }
    }
  }

  /** A single record of type 0xFB that comes without a stamp differs between the two. */
  lemma UnifiedRecordDiffers()
    ensures var m: Record := seq(16, i => if i == 2 then UNIFIED else 0);
            var ops := [Add(m, [1, 2, 3, 4])];
            LastN(FiledSinceErase(ops), RECORDS_MAX) != LastN(SinceErase(ops), RECORDS_MAX)
  {
    var m: Record := seq(16, i => if i == 2 then UNIFIED else 0);
    var op := Add(m, [1, 2, 3, 4]);
    assert [op][..0] == [] && AddsSinceErase([op]) == [op];
    assert m[4..8][0] == 0;
    assert op in LastN(AddsSinceErase([op]), RECORDS_MAX) && !FiledAsKept(op);
    FileAgreesIff([op]);
  }

  lemma LastNAgain(s: seq<Record>, r: Record, n: nat)
    requires n > 0
    ensures LastN(LastN(s, n) + [r], n) == LastN(s + [r], n)
  {
  }
}
