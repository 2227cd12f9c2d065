/**
 The deduplicator's sequential core: the filter in front of the hashing
 workers, what a hashing worker produces, the worker count, and the
 set of row ids to delete, gathered from the greedy elimination of
 every collision pack. Threads and channels are left out: packs are
 handled one after the other and their deletions are united.
 */
module Deduplicator {
  import opened Wrappers
  import opened Addresses
  import opened Seqs
  import opened Grouping
  import opened PackSort
  import opened Elimination

  /** `a - b` on `usize`, with `None` where Rust's subtraction overflows. */
  function UsizeSub(a: nat, b: nat): (r: Option<nat>)
  {
    if a >= b then Some(a - b) else None
  }

  /** Number of worker threads for `cpus` cores: `max(3, cpus) - 2`. */
  function WorkerCount(cpus: nat): (r: Option<nat>)
    ensures r.Some? && r.value >= 1
    ensures cpus >= 3 ==> r.value == cpus - 2
    ensures cpus <= 3 ==> r.value == 1
  {
    UsizeSub(if cpus > 3 then cpus else 3, 2)
  }

  /** The address has a house number, and it is not the "S/N" marker. */
  predicate HasHouseNumber(a: Address)
  {
    a.number.Some? && a.number.value != "S/N"
  }

  /** `insert`: hand the address to the hashing workers, unless its house
      number is missing or is "S/N". */
  function Insert(a: Address): (r: Option<Address>)
    ensures r.None? <==> (a.number == None || a.number == Some("S/N"))
    ensures r.Some? ==> r.value == a
  {
    match a.number
    case None => None
    case Some(n) => if n == "S/N" then None else Some(a)
  }

  /** The addresses forwarded by successive calls of `insert`. */
  function Forwarded(addrs: seq<Address>): (r: seq<Address>)
    ensures |r| <= |addrs|
    ensures forall i :: 0 <= i < |r| ==> r[i] in addrs && HasHouseNumber(r[i])
    decreases |addrs|
  {
    if |addrs| == 0 then []
    else
      match Insert(addrs[0])
      case Some(a) => [a] + Forwarded(addrs[1..])
      case None => Forwarded(addrs[1..])
  }

  /** Forwarding splits the input: the addresses with a real house number
      go through unchanged and in order, the others are dropped. */
  lemma {:induction false} ForwardedSplitsInput(addrs: seq<Address>)
    ensures Interleave(addrs, Forwarded(addrs), Filter(addrs, a => !HasHouseNumber(a)))
    ensures Forwarded(addrs) == Filter(addrs, HasHouseNumber)
    decreases |addrs|
  {
    if |addrs| > 0 {
      var dropped := (a: Address) => !HasHouseNumber(a);
      ForwardedSplitsInput(addrs[1..]);
      assert addrs == [addrs[0]] + addrs[1..];
      InterleaveCons(addrs[0], addrs[1..], Forwarded(addrs[1..]), Filter(addrs[1..], dropped), HasHouseNumber(addrs[0]));
    }
  }

  /** What a hashing worker sends on: the address, its rank and its hashes. */
  datatype HashRecord = HashRecord(address: Address, rank: int, hashes: seq<int>)

  /** The addresses the records carry, one per record. */
  function RecordAddresses(rs: seq<HashRecord>): (r: seq<Address>)
    ensures |r| == |rs| && forall i :: 0 <= i < |rs| ==> r[i] == rs[i].address
  {
    seq(|rs|, i requires 0 <= i < |rs| => rs[i].address)
  }

  /** The hashing stage behind `insert`: forwarded addresses that pass the
      caller's filter are ranked and hashed, each exactly once. The workers
      promise no order, so the stage is stated up to order. */
  function HashStage(filter: Address -> bool, ranking: Address -> int, hashAddress: Address -> seq<int>,
                     addrs: seq<Address>): (r: seq<HashRecord>)
    ensures forall i :: 0 <= i < |r| ==>
      && r[i].address in addrs
      && HasHouseNumber(r[i].address)
      && filter(r[i].address)
      && r[i].rank == ranking(r[i].address)
      && r[i].hashes == hashAddress(r[i].address)
    ensures forall j :: 0 <= j < |addrs| && HasHouseNumber(addrs[j]) && filter(addrs[j]) ==>
      exists i :: 0 <= i < |r| && r[i].address == addrs[j]
    ensures multiset(RecordAddresses(r)) == multiset(Filter(Filter(addrs, HasHouseNumber), filter))
  {
    ForwardedSplitsInput(addrs);
    var passed := Filter(Forwarded(addrs), filter);
    var r := seq(|passed|, i requires 0 <= i < |passed| => HashRecord(passed[i], ranking(passed[i]), hashAddress(passed[i])));
    forall j | 0 <= j < |addrs| && HasHouseNumber(addrs[j]) && filter(addrs[j])
      ensures exists i :: 0 <= i < |r| && r[i].address == addrs[j]
    {
      var fwd := Forwarded(addrs);
      assert addrs[j] in fwd;
      var k :| 0 <= k < |fwd| && fwd[k] == addrs[j];
      assert addrs[j] in passed;
      var i :| 0 <= i < |passed| && passed[i] == addrs[j];
      assert r[i].address == addrs[j];
    }
    assert RecordAddresses(r) == passed;
    r
  }

  /** Row ids a worker sends for deletion while handling `pack`. */
  function PackDeletedIds(isDup: (Address, Address) -> bool, pack: seq<Item>): (ids: set<int>)
    requires |pack| >= 1
    ensures |pack| > MaxPackLength ==> ids == {}
    ensures forall id :: id in ids ==> exists d :: d in pack && d.id == id
  {
    match ProcessPack(isDup, pack)
    case Skipped => {}
    case Processed(kept, deleted) =>
      ProcessedPartition(isDup, pack);
      assert forall d :: d in deleted ==> d in multiset(pack);
      set d | d in deleted :: d.id
  }

  /** The union of a sequence of id sets. */
  function UnionOf(sets: seq<set<int>>): (u: set<int>)
    ensures forall id :: id in u <==> exists i :: 0 <= i < |sets| && id in sets[i]
    decreases |sets|
  {
    if |sets| == 0 then {}
    else
      var tail := UnionOf(sets[1..]);
      assert forall i :: 1 <= i < |sets| ==> sets[i] == sets[1..][i - 1];
      sets[0] + tail
  }

  /** Union of the ids deleted by every pack. */
  function DeletedIds(isDup: (Address, Address) -> bool, packs: seq<seq<Item>>): (ids: set<int>)
    requires forall i :: 0 <= i < |packs| ==> |packs[i]| >= 1
    ensures forall id :: id in ids <==> exists i :: 0 <= i < |packs| && id in PackDeletedIds(isDup, packs[i])
  {
    var sets := seq(|packs|, i requires 0 <= i < |packs| => PackDeletedIds(isDup, packs[i]));
    assert forall i :: 0 <= i < |packs| ==> sets[i] == PackDeletedIds(isDup, packs[i]);
    UnionOf(sets)
  }

  /** `compute_duplicates`: group the hash-sorted rows into collision packs
      and collect the ids the greedy elimination deletes. */
  function ComputeDuplicates(isDup: (Address, Address) -> bool, items: seq<Item>): (ids: set<int>)
    ensures forall id :: id in ids ==> exists d :: d in items && d.id == id
  {
    var packs := Packs(items);
    var ids := DeletedIds(isDup, packs);
    assert forall id :: id in ids ==> exists d :: d in items && d.id == id by {
      forall id | id in ids
        ensures exists d :: d in items && d.id == id
      {
        var i :| 0 <= i < |packs| && id in PackDeletedIds(isDup, packs[i]);
        var d :| d in packs[i] && d.id == id;
        RunsFlatten(items);
        FlattenMember(Runs(items), d);
      }
    }
    ids
  }

  /** `id` belongs to an item that a processed pack deletes, with a kept
      witness above it of which it is a duplicate. */
  ghost predicate JustifiedDeletion(isDup: (Address, Address) -> bool, pack: seq<Item>, id: int)
  {
    && 1 <= |pack| <= MaxPackLength
    && var r := ProcessPack(isDup, pack);
       exists d :: d in r.deleted && d.id == id && HasWitness(isDup, r.kept, d)
  }

  /** An id deleted by one pack is justified in that pack. */
  lemma PackDeletionIsJustified(isDup: (Address, Address) -> bool, p: seq<Item>, id: int)
    requires |p| >= 1 && id in PackDeletedIds(isDup, p)
    ensures JustifiedDeletion(isDup, p, id)
  {
    var r := ProcessPack(isDup, p);
    var d :| d in r.deleted && d.id == id;
    var j :| 0 <= j < |r.deleted| && r.deleted[j] == d;
    DeletedHaveWitness(isDup, p);
    assert HasWitness(isDup, r.kept, r.deleted[j]);
  }

  /** Every id in the union is justified in one of the packs. */
  lemma DeletedIdsAreJustified(isDup: (Address, Address) -> bool, packs: seq<seq<Item>>)
    requires forall i :: 0 <= i < |packs| ==> |packs[i]| >= 1
    ensures forall id :: id in DeletedIds(isDup, packs) ==>
      exists i :: 0 <= i < |packs| && JustifiedDeletion(isDup, packs[i], id)
  {
    forall id | id in DeletedIds(isDup, packs)
      ensures exists i :: 0 <= i < |packs| && JustifiedDeletion(isDup, packs[i], id)
    {
      var i :| 0 <= i < |packs| && id in PackDeletedIds(isDup, packs[i]);
      PackDeletionIsJustified(isDup, packs[i], id);
    }
  }

  /** Every deleted id comes from a collision pack short enough to be
      processed, where the greedy scan found a kept witness for it. */
  lemma DeletionIsJustified(isDup: (Address, Address) -> bool, items: seq<Item>)
    ensures forall id :: id in ComputeDuplicates(isDup, items) ==>
      exists p :: p in Packs(items) && JustifiedDeletion(isDup, p, id)
  {
    var packs := Packs(items);
    DeletedIdsAreJustified(isDup, packs);
    forall id | id in ComputeDuplicates(isDup, items)
      ensures exists p :: p in Packs(items) && JustifiedDeletion(isDup, p, id)
    {
      var i :| 0 <= i < |packs| && JustifiedDeletion(isDup, packs[i], id);
      assert packs[i] in packs;
    }
  }


  /** Conversely, every item deleted by a processed pack has its id in the
      result. */
  lemma DeletionIsComplete(isDup: (Address, Address) -> bool, items: seq<Item>, p: seq<Item>, d: Item)
    requires p in Packs(items) && |p| <= MaxPackLength
    requires d in ProcessPack(isDup, p).deleted
    ensures d.id in ComputeDuplicates(isDup, items)
  {
    var packs := Packs(items);
    var i :| 0 <= i < |packs| && packs[i] == p;
    assert d.id in PackDeletedIds(isDup, packs[i]);
  }
}
