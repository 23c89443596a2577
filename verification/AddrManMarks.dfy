/**
 * What the address manager's answers and marks say, entry by entry, without the functions that compute them
 * (`Attempt_`, `Connected_`, `Good_`, `GetAddr_`, `IsTerrible`; src/addrman.cpp, src/addrman.h).
 */
module AddrManMarks {
  import opened Common
  import opened AddrMan
  import opened AddrManSteps
  import opened AddrManOps
  import opened AddrManAdd

  /** The address index leads to an entry exactly if some entry has this address and port, and then to that one. */
  lemma KnownIs(s: State, service: Service, id: int)
    requires AddrOk(s) && id in s.info
    ensures s.info[id].service == service <==> Known(s, service) == Some(id)
  {
  }

  /** An attempt is written into the entry with exactly this address and port, and nowhere else. */
  lemma AttemptedMarks(s: State, service: Service, time: int)
    requires AddrOk(s)
    ensures var r := Attempted(s, service, time);
            && r == s.(info := r.info) && r.info.Keys == s.info.Keys
            && forall id :: id in s.info ==>
                 r.info[id] == if s.info[id].service == service
                               then s.info[id].(lastTry := time, attempts := s.info[id].attempts + 1) else s.info[id]
  {
    hide AddrOk, Known;
    var r := Attempted(s, service, time);
    assert Known(s, service).Some? ==> Known(s, service).value in s.info by { KnownIn(s, service); }
    assert r.info.Keys == s.info.Keys;
    forall id | id in s.info
      ensures r.info[id] == if s.info[id].service == service
                            then s.info[id].(lastTry := time, attempts := s.info[id].attempts + 1) else s.info[id]
    {
      KnownIs(s, service, id);
    }
  }

  lemma KnownIn(s: State, service: Service)
    ensures Known(s, service).Some? ==> Known(s, service).value in s.info
  {
  }

  /** A connection is written, in 32 bits, into the entry with exactly this address and port if it is over 1200 seconds old. */
  lemma ConnectedMarks(s: State, service: Service, time: int)
    requires AddrOk(s)
    ensures var r := Connected(s, service, time);
            && r == s.(info := r.info) && r.info.Keys == s.info.Keys
            && forall id :: id in s.info ==>
                 r.info[id] == if s.info[id].service == service && s.info[id].time + 1200 < time
                               then s.info[id].(time := time % 4294967296) else s.info[id]
  {
    hide AddrOk, Known;
    var r := Connected(s, service, time);
    assert Known(s, service).Some? ==> Known(s, service).value in s.info by { KnownIn(s, service); }
    assert r.info.Keys == s.info.Keys;
    forall id | id in s.info
      ensures r.info[id] == if s.info[id].service == service && s.info[id].time + 1200 < time
                            then s.info[id].(time := time % 4294967296) else s.info[id]
    {
      KnownIs(s, service, id);
    }
  }

  /** What `Good_` makes of an entry: only the one with this service is marked, and it is tried in the end. */
  predicate Marked(before: Info, after: Info, service: Service, time: int) {
    && after.service == before.service && after.services == before.services
    && after.time == before.time && after.source == before.source
    && (if before.service == service
        then after.inTried && after.lastSuccess == time && after.lastTry == time && after.attempts == 0
        else
          && (after.inTried ==> before.inTried)
          && after.lastSuccess == before.lastSuccess && after.lastTry == before.lastTry && after.attempts == before.attempts)
  }

  /** Is `id` lost when `service` becomes tried? Its one reference is where the entry it displaces has to go. */
  ghost predicate Displaced(h: Hashing, s: State, service: Service, id: int) {
    var slot := TriedSlot(h, s.key, service);
    && id in s.info && s.info[id].refCount == 1 && s.info[id].service != service
    && slot in s.triedTable && s.triedTable[slot] in s.info
    && var e := s.info[s.triedTable[slot]];
       var u := NewSlot(h, s.key, e.service, e.source);
       u in s.newTable && s.newTable[u] == id
  }

  lemma LostExactly(h: Hashing, s: State, u: Slot, id: int)
    requires Settled(h, s)
    ensures id in Lost(s, u) <==> u in s.newTable && s.newTable[u] == id && id in s.info && s.info[id].refCount == 1
  {
    if u in s.newTable && s.newTable[u] == id {
      assert id in s.info && EntryOk(h, s, id, false);
    }
  }

  lemma SacrificedExactly(h: Hashing, s: State, service: Service, k: int, id: int)
    requires Steady(h, s) && Known(s, service) == Some(k) && id in s.info
    ensures id in Sacrificed(h, s, k) <==> Displaced(h, s, service, id)
  {
    hide TriedSlot, NewSlot, Lost, Midway;
    assert k in s.info && s.info[k].service == service;
    KnownIs(s, service, id);
    var slot := TriedSlot(h, s.key, service);
    if slot in s.triedTable && s.triedTable[slot] in s.info {
      var e := s.info[s.triedTable[slot]];
      LostExactly(h, s, NewSlot(h, s.key, e.service, e.source), id);
    }
  }

  /** Marking a service good: what every entry says afterwards, and which one is gone. */
  lemma GoodMarks(h: Hashing, s: State, service: Service, time: int)
    requires Steady(h, s)
    ensures var r, k := Good(h, s, service, time), Known(s, service);
            && r.info.Keys <= s.info.Keys
            && (forall id :: id in s.info ==>
                  (id !in r.info <==> k.Some? && !s.info[k.value].inTried && Displaced(h, s, service, id)))
            && (forall id :: id in r.info ==> Marked(s.info[id], r.info[id], service, time))
  {
    hide Midway, MadeTried, Sacrificed, Displaced, EntriesKept, TriedSlot;
    var r, k := Good(h, s, service, time), Known(s, service);
    if k.Some? {
      assert k.value in s.info && s.info[k.value].service == service;
      SucceededSettled(h, s, k.value, time);
      var t := Succeeded(s, k.value, time);
      assert t.info.Keys == s.info.Keys;
      if !s.info[k.value].inTried {
        MadeTriedEffect(h, t, k.value);
        assert r == MadeTried(h, t, k.value);
        SacrificedSame(h, s, t, k.value);
        GoodKeeps(s, t, r, Sacrificed(h, s, k.value), k.value, service, time);
      }
    }
    forall id | id in s.info
      ensures id !in r.info <==> k.Some? && !s.info[k.value].inTried && Displaced(h, s, service, id)
    {
      if k.Some? && !s.info[k.value].inTried {
        SacrificedExactly(h, s, service, k.value, id);
      }
    }
    forall id | id in r.info ensures Marked(s.info[id], r.info[id], service, time) {
      KnownIs(s, service, id);
    }
  }

  lemma GoodKeeps(s: State, t: State, r: State, lost: set<int>, k: int, service: Service, time: int)
    requires AddrOk(s) && k in s.info && s.info[k].service == service && t == Succeeded(s, k, time)
    requires EntriesKept(t, r, lost, k) && k in r.info && r.info[k].inTried
    ensures r.info.Keys == s.info.Keys - lost
    ensures forall id :: id in r.info ==> Marked(s.info[id], r.info[id], service, time)
  {
    assert t.info.Keys == s.info.Keys;
    forall id | id in r.info ensures Marked(s.info[id], r.info[id], service, time) {
      assert SameFacts(r.info[id], t.info[id]);
      if s.info[id].service == service {
        assert id == k;
      }
    }
  }

  // ---------------------------------------------------------------- handing out addresses

  /**
   * An entry tried within the last minute is never terrible. Any other one is if its time is over ten minutes ahead,
   * unknown, or over thirty days old; if three attempts never succeeded; or if ten failed and the last success is over a
   * week ago.
   */
  lemma TerribleExactly(i: Info, now: int)
    ensures i.lastTry != 0 && i.lastTry >= now - 60 ==> !IsTerrible(i, now)
    ensures !(i.lastTry != 0 && i.lastTry >= now - 60) ==>
              (!IsTerrible(i, now) <==>
                 && 0 < i.time <= now + 600 && now <= i.time + 2592000
                 && (i.lastSuccess == 0 ==> i.attempts < 3)
                 && (now > i.lastSuccess + 604800 ==> i.attempts < 10))
  {
  }

  /** What is handed out about an entry. */
  predicate Tells(a: Address, i: Info) {
    a.service == i.service && a.services == i.services && a.time == i.time
  }

  /** `out` tells of the entries at `at` in the random order: those of the first `n` that are not terrible, each once. */
  ghost predicate TellsOf(s: State, n: nat, now: int, at: seq<nat>, out: seq<Address>)
    requires n <= |s.random| && forall p :: 0 <= p < |s.random| ==> s.random[p] in s.info
  {
    && |at| == |out| && (forall j :: 0 <= j < |at| ==> at[j] < n)
    && (forall i, j :: 0 <= i < j < |at| ==> at[i] < at[j])
    && (forall j :: 0 <= j < |at| ==> var i := s.info[s.random[at[j]]]; !IsTerrible(i, now) && Tells(out[j], i))
    && (forall p :: 0 <= p < n && !IsTerrible(s.info[s.random[p]], now) ==> p in at)
  }

  lemma TellsNext(s: State, n: nat, now: int, at: seq<nat>, out: seq<Address>)
    requires n < |s.random| && forall p :: 0 <= p < |s.random| ==> s.random[p] in s.info
    requires TellsOf(s, n, now, at, out)
    ensures var i := s.info[s.random[n]];
            if IsTerrible(i, now) then TellsOf(s, n + 1, now, at, out) else TellsOf(s, n + 1, now, at + [n], out + [AddressOf(i)])
  {
    hide IsTerrible;
    assert forall p :: p in at ==> p in at + [n];
    assert n in at + [n];
  }

  lemma RandomKnown(s: State)
    requires IndexOk(s)
    ensures forall p :: 0 <= p < |s.random| ==> s.random[p] in s.info
  {
  }

  /** The sample tells of the entries that are not terrible, in their order, each once and none left out. */
  lemma {:induction false} SampleTells(s: State, n: nat, now: int) returns (at: seq<nat>)
    requires IndexOk(s) && n <= |s.random|
    ensures TellsOf(s, n, now, at, Sample(s, n, now))
  {
    hide IsTerrible, IndexOk, TellsOf, Sample;
    RandomKnown(s);
    at := [];
    if n == 0 {
      TellsNone(s, now);
    } else {
      var rest := SampleTells(s, n - 1, now);
      TellsNext(s, n - 1, now, rest, Sample(s, n - 1, now));
      SampleNext(s, n, now);
      at := if IsTerrible(s.info[s.random[n - 1]], now) then rest else rest + [n - 1];
    }
  }

  lemma TellsNone(s: State, now: int)
    requires IndexOk(s)
    ensures TellsOf(s, 0, now, [], Sample(s, 0, now))
  {
  }

  lemma {:induction false} SampleNext(s: State, n: nat, now: int)
    requires IndexOk(s) && 0 < n <= |s.random|
    ensures var i := s.info[s.random[n - 1]];
            Sample(s, n, now) == if IsTerrible(i, now) then Sample(s, n - 1, now) else Sample(s, n - 1, now) + [AddressOf(i)]
  {
    hide IsTerrible, IndexOk;
    RandomKnown(s);
    assert Sample(s, n - 1, now) + [] == Sample(s, n - 1, now);
  }

  /** `GetAddr_`: a random sample of the entries that are not terrible; at most 23 percent of all entries and at most 2500. */
  lemma GivenTells(h: Hashing, s: State, draws: nat -> nat, now: int) returns (k: nat, at: seq<nat>)
    requires Settled(h, s)
    ensures var (r, out) := Given(s, draws, now);
            && OnlyShuffled(s, r) && IndexOk(r) && k <= |r.random|
            && 100 * |out| <= 23 * |s.random| && |out| <= 2500
            && (k < |r.random| ==> |out| == 2500 || 100 * (|out| + 1) > 23 * |s.random|)
            && TellsOf(r, k, now, at, out)
  {
    hide IndexOk, NewTableOk, TriedTableOk, EntriesOk, CountsOk, Given, Sample, TellsOf, OnlyShuffled;
    k := GivenEffect(h, s, draws, now);
    at := SampleTells(Given(s, draws, now).0, k, now);
  }
}
