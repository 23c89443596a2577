/** How much room one part of the network can take up in the address manager (the design goals in src/addrman.h). */
module AddrManLimits {
  import opened Common
  import opened AddrMan
  import opened AddrManSteps
  import opened AddrManOps
  import opened AddrManAdd

  /**
   * A tried address belongs in one of 256 buckets of 64: one of the eight its group selects, chosen by the full address,
   * in the position that bucket and the full address select.
   */
  lemma TriedChoice(h: Hashing, key: Key, s: Service) returns (choice: nat)
    ensures choice < 8 && choice == h.triedInner(key, s) % 8
    ensures var b := h.triedOuter(key, h.group(s.ip), choice) % 256;
            0 <= b < 256 && TriedSlot(h, key, s) == (b, h.position(key, false, b, s) % 64)
  {
    choice := h.triedInner(key, s) % 8;
  }

  /**
   * A new address belongs in one of 1024 buckets of 64: one of the sixty-four that the group of its source selects, chosen
   * by the groups of the address and of the source, in the position that bucket and the full address select.
   */
  lemma NewChoice(h: Hashing, key: Key, s: Service, source: NetAddr) returns (choice: nat)
    ensures choice < 64 && choice == h.newInner(key, h.group(s.ip), h.group(source)) % 64
    ensures var b := h.newOuter(key, h.group(source), choice) % 1024;
            0 <= b < 1024 && NewSlot(h, key, s, source) == (b, h.position(key, true, b, s) % 64)
  {
    choice := h.newInner(key, h.group(s.ip), h.group(source)) % 64;
  }

  /** The first `n` buckets that a group of sources can select in the new table. */
  function NewChoices(h: Hashing, key: Key, g: Group, n: nat): (r: set<int>)
    ensures |r| <= n
  {
    if n == 0 then {} else NewChoices(h, key, g, n - 1) + {h.newOuter(key, g, n - 1) % NEW_BUCKET_COUNT}
  }

  lemma {:induction false} NewChosen(h: Hashing, key: Key, g: Group, n: nat, i: nat)
    requires i < n
    ensures h.newOuter(key, g, i) % NEW_BUCKET_COUNT in NewChoices(h, key, g, n)
    decreases n
  {
    if i < n - 1 {
      NewChosen(h, key, g, n - 1, i);
    }
  }

  lemma SourceBucket(h: Hashing, key: Key, s: Service, source: NetAddr)
    ensures NewBucket(h, key, s, source) in NewChoices(h, key, h.group(source), NEW_BUCKETS_PER_SOURCE_GROUP)
  {
    var g := h.group(source);
    NewChosen(h, key, g, NEW_BUCKETS_PER_SOURCE_GROUP, h.newInner(key, h.group(s.ip), g) % NEW_BUCKETS_PER_SOURCE_GROUP);
  }

  /** The buckets in which a step put an id into a slot that did not hold it. */
  function Written(s: State, r: State): set<int> {
    set slot | slot in r.newTable && (slot !in s.newTable || s.newTable[slot] != r.newTable[slot]) :: slot.0
  }

  lemma WrittenOne(s: State, r: State, slot: Slot, id: int)
    requires r.newTable == s.newTable || r.newTable == s.newTable[slot := id]
    ensures Written(s, r) <= {slot.0}
  {
  }

  /** An announcement writes to no bucket but one that its source's group can select. */
  lemma AddWrites(h: Hashing, s: State, a: Address, source: NetAddr, penalty: int, now: int, draw: nat)
    requires Steady(h, s)
    ensures var r := Added(h, s, a, source, penalty, now, draw).0;
            r.key == s.key && Written(s, r) <= NewChoices(h, s.key, h.group(source), NEW_BUCKETS_PER_SOURCE_GROUP)
  {
    hide IndexOk, NewTableOk, TriedTableOk, EntriesOk, CountsOk, AddrOk, NewBucket, Position, NewChoices, Written, Reheard, Listed, Lost, GivesWay;
    var r := Added(h, s, a, source, penalty, now, draw).0;
    if !h.routable(a.service.ip) {
      WrittenOne(s, r, (0, 0), 0);
      WrittenSame(s, r);
    } else if a.service.ip in s.addr {
      var id := s.addr[a.service.ip];
      assert id in s.info by { Leads(s, a.service.ip); }
      ReheardEffect(h, s, id, a, source, penalty, now, draw);
      WrittenOne(s, r, NewSlot(h, s.key, s.info[id].service, source), id);
      SourceBucket(h, s.key, s.info[id].service, source);
    } else {
      AddedEffect(h, s, a, source, penalty, now, draw);
      WrittenOne(s, r, NewSlot(h, s.key, a.service, source), s.idCount);
      SourceBucket(h, s.key, a.service, source);
    }
  }

  lemma Leads(s: State, ip: NetAddr)
    requires AddrOk(s) && ip in s.addr
    ensures s.addr[ip] in s.info
  {
  }

  lemma WrittenSame(s: State, r: State)
    requires r.newTable == s.newTable
    ensures Written(s, r) == {}
  {
  }

  lemma ApplyKey(h: Hashing, s: State, op: Op)
    requires Steady(h, s)
    ensures Apply(h, s, op).key == s.key
  {
    hide IndexOk, NewTableOk, TriedTableOk, EntriesOk, CountsOk, AddrOk, Added, Good, Given, Written, NewChoices;
    match op
    case Add(a, source, penalty, now, draw) => AddWrites(h, s, a, source, penalty, now, draw);
    case MarkGood(service, time) => GoodEffect(h, s, service, time);
    case Attempt(_, _) =>
    case Connect(_, _) =>
    case GetAddr(draws, now) => var _ := GivenEffect(h, s, draws, now);
  }

  lemma {:induction false} RunKey(h: Hashing, states: seq<State>, ops: seq<Op>, k: nat)
    requires IsRun(h, states, ops) && k < |states|
    ensures states[k].key == states[0].key
    decreases k
  {
    hide Settled, Apply, AddrOk, TimesOk, Timely;
    if k > 0 {
      RunKey(h, states, ops, k - 1);
      RunInv(h, states, ops, k - 1);
      var _ := ops[k - 1];
      ApplyKey(h, states[k - 1], ops[k - 1]);
    }
  }

  /** The buckets written to by the announcements of one group of sources in the first `k` operations. */
  function WrittenByGroup(h: Hashing, states: seq<State>, ops: seq<Op>, g: Group, k: nat): set<int>
    requires |states| == |ops| + 1 && k <= |ops|
  {
    if k == 0 then {}
    else
      WrittenByGroup(h, states, ops, g, k - 1) +
      if ops[k - 1].Add? && h.group(ops[k - 1].source) == g then Written(states[k - 1], states[k]) else {}
  }

  /** However many addresses a group of sources announces in a run, they go to at most 64 of the 1024 new buckets. */
  lemma {:induction false} SourceGroupLimit(h: Hashing, states: seq<State>, ops: seq<Op>, g: Group, k: nat)
    requires IsRun(h, states, ops) && k <= |ops|
    ensures var written := WrittenByGroup(h, states, ops, g, k);
            written <= NewChoices(h, states[0].key, g, NEW_BUCKETS_PER_SOURCE_GROUP) && |written| <= 64
    decreases k
  {
    hide Settled, Added, AddrOk, TimesOk, Timely, NewChoices, Written;
    if k > 0 {
      SourceGroupLimit(h, states, ops, g, k - 1);
      RunInv(h, states, ops, k - 1);
      RunKey(h, states, ops, k - 1);
      var op := ops[k - 1];
      if op.Add? && h.group(op.source) == g {
        AddWrites(h, states[k - 1], op.a, op.source, op.penalty, op.now, op.draw);
      }
    }
    FewOf(WrittenByGroup(h, states, ops, g, k), NewChoices(h, states[0].key, g, NEW_BUCKETS_PER_SOURCE_GROUP));
  }

  lemma FewOf(a: set<int>, b: set<int>)
    requires a <= b
    ensures |a| <= |b|
  {
    assert b == a + (b - a);
  }

  /** The slots of one bucket. */
  function Row(b: int, n: nat): (r: set<Slot>)
    ensures |r| <= n && forall p :: 0 <= p < n ==> (b, p) in r
  {
    if n == 0 then {} else Row(b, n - 1) + {(b, n - 1)}
  }

  lemma OwnSlots(h: Hashing, s: State, x: int, y: int)
    requires Settled(h, s) && x in s.info && y in s.info && s.info[x].inTried && s.info[y].inTried && x != y
    ensures TriedSlot(h, s.key, s.info[x].service) != TriedSlot(h, s.key, s.info[y].service)
  {
    assert EntryOk(h, s, x, false) && EntryOk(h, s, y, false);
  }

  /** Entries with different slots are no more than there are slots. */
  lemma {:induction false} NoMoreThanSlots(h: Hashing, s: State, ids: set<int>, slots: set<Slot>)
    requires Settled(h, s) && forall id :: id in ids ==> id in s.info && s.info[id].inTried && TriedSlot(h, s.key, s.info[id].service) in slots
    ensures |ids| <= |slots|
    decreases |ids|
  {
    hide IndexOk, NewTableOk, TriedTableOk, EntriesOk, CountsOk, TriedSlot;
    if ids != {} {
      var id := SomeElement(ids);
      var slot := TriedSlot(h, s.key, s.info[id].service);
      forall x | x in ids - {id} ensures TriedSlot(h, s.key, s.info[x].service) in slots - {slot} {
        OwnSlots(h, s, id, x);
      }
      NoMoreThanSlots(h, s, ids - {id}, slots - {slot});
    }
  }

  /** The slots of the buckets that a group can select. */
  function Rows(h: Hashing, key: Key, g: Group, n: nat): (r: set<Slot>)
    ensures |r| <= BUCKET_SIZE * n
  {
    if n == 0 then {}
    else Rows(h, key, g, n - 1) + Row(h.triedOuter(key, g, n - 1) % TRIED_BUCKET_COUNT, BUCKET_SIZE)
  }

  lemma {:induction false} InRows(h: Hashing, key: Key, g: Group, n: nat, i: nat, p: nat)
    requires i < n && p < BUCKET_SIZE
    ensures (h.triedOuter(key, g, i) % TRIED_BUCKET_COUNT, p) in Rows(h, key, g, n)
    decreases n
  {
    if i < n - 1 {
      InRows(h, key, g, n - 1, i, p);
    }
  }

  /** The tried addresses of a group. */
  function TriedOfGroup(h: Hashing, s: State, g: Group): set<int> {
    set id | id in s.info && s.info[id].inTried && h.group(s.info[id].service.ip) == g
  }

  /** In every consistent state, one group of addresses holds at most 512 of the 16384 tried slots. */
  lemma GroupLimit(h: Hashing, s: State, g: Group)
    requires Settled(h, s)
    ensures |TriedOfGroup(h, s, g)| <= 512
  {
    hide Midway, Rows;
    var slots := Rows(h, s.key, g, TRIED_BUCKETS_PER_GROUP);
    forall id | id in TriedOfGroup(h, s, g) ensures TriedSlot(h, s.key, s.info[id].service) in slots {
      var v := s.info[id].service;
      var b := TriedBucket(h, s.key, v);
      InRows(h, s.key, g, TRIED_BUCKETS_PER_GROUP, h.triedInner(s.key, v) % TRIED_BUCKETS_PER_GROUP, Position(h, s.key, false, b, v));
    }
    NoMoreThanSlots(h, s, TriedOfGroup(h, s, g), slots);
  }
}
