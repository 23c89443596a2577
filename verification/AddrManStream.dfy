/**
 * The stream an address manager is written to: a version, the size of the key, the key, the counts and the lists, one
 * token for every byte, key, integer and entry (`CAddrMan::Serialize`, `Unserialize`, src/addrman.h).
 */
module AddrManStream {
  import opened Common
  import opened AddrMan
  import opened AddrManStore
  import opened AddrManStay
  import opened AddrManSave
  import opened AddrManTable
  import opened AddrManFile

  datatype Token = ByteOf(b: Byte) | KeyOf(key: Key) | IntOf(n: int) | EntryOf(r: Record)

  type Stream = seq<Token>

  /** What reading a stream ends in: a file and the rest, an exception, or counts below zero, which the source takes over as they are. */
  datatype Outcome = Read(f: File, rest: Stream) | Refused | Miscounted

  const MARK: int := 0x4000_0000

  /** `n ^ (1 << 30)`. */
  function Toggled(n: int): int {
    if n / MARK % 2 == 0 then n + MARK else n - MARK
  }

  lemma ToggledTwice(n: int)
    ensures Toggled(Toggled(n)) == n
  {
  }

  /** The number of buckets, marked in every version but 0. */
  function Marked(version: int, n: int): int {
    if version == 0 then n else Toggled(n)
  }

  // ---------------------------------------------------------------- writing

  function Entries(rs: seq<Record>): Stream {
    seq(|rs|, i requires 0 <= i < |rs| => EntryOf(rs[i]))
  }

  function Ints(xs: seq<int>): Stream {
    seq(|xs|, i requires 0 <= i < |xs| => IntOf(xs[i]))
  }

  function Lists(bs: seq<seq<int>>): Stream {
    if bs == [] then [] else [IntOf(|bs[0]|)] + Ints(bs[0]) + Lists(bs[1..])
  }

  function Header(f: File): Stream
    requires 0 <= f.version < 256
  {
    [ByteOf(f.version), ByteOf(32), KeyOf(f.key), IntOf(|f.entries|), IntOf(|f.triedEntries|), IntOf(Marked(f.version, |f.buckets|))]
  }

  function Emitted(f: File): Stream
    requires 0 <= f.version < 256
  {
    Header(f) + Entries(f.entries) + Entries(f.triedEntries) + Lists(f.buckets)
  }

  // ---------------------------------------------------------------- reading

  predicate AllEntries(s: Stream, n: nat) {
    n <= |s| && forall i :: 0 <= i < n ==> s[i].EntryOf?
  }

  predicate AllInts(s: Stream, n: nat) {
    n <= |s| && forall i :: 0 <= i < n ==> s[i].IntOf?
  }

  function TakeEntries(s: Stream, n: nat): seq<Record>
    requires AllEntries(s, n)
  {
    seq(n, i requires 0 <= i < n => s[i].r)
  }

  function TakeInts(s: Stream, n: nat): seq<int>
    requires AllInts(s, n)
  {
    seq(n, i requires 0 <= i < n => s[i].n)
  }

  /** A loop of `n` turns does nothing if `n` is negative. */
  function Turns(n: int): nat {
    if n < 0 then 0 else n
  }

  function ReadLists(s: Stream, n: nat): Option<(seq<seq<int>>, Stream)>
    decreases n
  {
    if n == 0 then Some(([], s))
    else if s == [] || !s[0].IntOf? || !AllInts(s[1..], Turns(s[0].n)) then None
    else
      var k := Turns(s[0].n);
      match ReadLists(s[1 + k..], n - 1)
      case None => None
      case Some((bs, rest)) => Some(([TakeInts(s[1..], k)] + bs, rest))
  }

  predicate HasHeader(s: Stream) {
    |s| >= 6 && s[0].ByteOf? && s[1].ByteOf? && s[2].KeyOf? && s[3].IntOf? && s[4].IntOf? && s[5].IntOf?
  }

  /** `Unserialize`, as far as the stream is concerned. */
  function Parsed(s: Stream): Outcome {
    if !HasHeader(s) || s[1].b != 32 then Refused
    else if s[3].n < 0 || s[4].n < 0 then Miscounted
    else
      var news, tried, s1 := s[3].n, s[4].n, s[6..];
      if !AllEntries(s1, news) || !AllEntries(s1[news..], tried) then Refused
      else
        match ReadLists(s1[news + tried..], Turns(Marked(s[0].b, s[5].n)))
        case None => Refused
        case Some((buckets, rest)) =>
          Read(File(s[0].b, s[2].key, TakeEntries(s1, news), TakeEntries(s1[news..], tried), buckets), rest)
  }

  // ---------------------------------------------------------------- there and back

  lemma EntriesBack(rs: seq<Record>, rest: Stream)
    ensures var s := Entries(rs) + rest; AllEntries(s, |rs|) && TakeEntries(s, |rs|) == rs && s[|rs|..] == rest
  {
    var s := Entries(rs) + rest;
    assert forall i :: 0 <= i < |rs| ==> s[i] == EntryOf(rs[i]);
  }

  lemma IntsBack(xs: seq<int>, rest: Stream)
    ensures var s := Ints(xs) + rest; AllInts(s, |xs|) && TakeInts(s, |xs|) == xs && s[|xs|..] == rest
  {
    var s := Ints(xs) + rest;
    assert forall i :: 0 <= i < |xs| ==> s[i] == IntOf(xs[i]);
  }

  lemma OneListBack(xs: seq<int>, more: Stream, n: nat)
    requires n > 0
    ensures ReadLists([IntOf(|xs|)] + Ints(xs) + more, n) ==
      match ReadLists(more, n - 1)
      case None => None
      case Some((bs, rest)) => Some(([xs] + bs, rest))
  {
    IntsBack(xs, more);
    hide Ints, TakeInts, AllInts;
    var s := [IntOf(|xs|)] + Ints(xs) + more;
    assert s[1..] == Ints(xs) + more;
    assert s[1 + |xs|..] == s[1..][|xs|..];
  }

  lemma {:induction false} ListsBack(bs: seq<seq<int>>, rest: Stream)
    ensures ReadLists(Lists(bs) + rest, |bs|) == Some((bs, rest))
    decreases |bs|
  {
    hide ReadLists, Ints, Lists;
    if bs == [] {
      NoLists(rest);
    } else {
      ListsCons(bs, rest);
      OneListBack(bs[0], Lists(bs[1..]) + rest, |bs|);
      ListsBack(bs[1..], rest);
      assert [bs[0]] + bs[1..] == bs;
    }
  }

  lemma NoLists(rest: Stream)
    ensures ReadLists(Lists([]) + rest, 0) == Some(([], rest))
  {
    assert [] + rest == rest;
  }

  lemma ListsCons(bs: seq<seq<int>>, rest: Stream)
    requires bs != []
    ensures Lists(bs) + rest == [IntOf(|bs[0]|)] + Ints(bs[0]) + (Lists(bs[1..]) + rest)
  {
    hide Ints;
  }

  /** Every file is read back from its stream, and nothing after it is touched. */
  lemma ParsedEmitted(f: File, rest: Stream)
    requires 0 <= f.version < 256
    ensures Parsed(Emitted(f) + rest) == Read(f, rest)
  {
    hide Entries, Lists, ReadLists, TakeEntries, AllEntries, Toggled;
    var t := Lists(f.buckets) + rest;
    var u := Entries(f.triedEntries) + t;
    var v := Entries(f.entries) + u;
    var s := Emitted(f) + rest;
    assert s == Header(f) + v && s[6..] == v;
    EntriesBack(f.entries, u);
    EntriesBack(f.triedEntries, t);
    assert v[|f.entries| + |f.triedEntries|..] == v[|f.entries|..][|f.triedEntries|..];
    ToggledTwice(|f.buckets|);
    ListsBack(f.buckets, rest);
  }

  lemma {:induction false} ReadListsPrefix(s: Stream, n: nat)
    requires ReadLists(s, n).Some?
    ensures |ReadLists(s, n).value.0| == n && |ReadLists(s, n).value.1| <= |s| - n
    decreases n
  {
    if n > 0 {
      ReadListsPrefix(s[1 + Turns(s[0].n)..], n - 1);
    }
  }

  /** A file is no longer than its stream: a count that the stream does not bear out is refused. */
  lemma NoMoreThanStream(s: Stream)
    requires Parsed(s).Read?
    ensures var f := Parsed(s).f; 6 + |f.entries| + |f.triedEntries| + |f.buckets| + |Parsed(s).rest| <= |s|
  {
    hide ReadLists, TakeEntries;
    var s1 := s[6..];
    ReadListsPrefix(s1[s[3].n + s[4].n..], Turns(Marked(s[0].b, s[5].n)));
    Taken(s1, s[3].n);
    Taken(s1[s[3].n..], s[4].n);
  }

  lemma Taken(s: Stream, n: nat)
    requires AllEntries(s, n)
    ensures |TakeEntries(s, n)| == n
  {
  }

  // ---------------------------------------------------------------- the code

  /** The entries of one group, written one by one. */
  method PutEntries(os: Stream, rs: seq<Record>) returns (out: Stream)
    ensures out == os + Entries(rs)
  {
    out := os;
    for i := 0 to |rs|
      invariant out == os + Entries(rs)[..i]
    {
      assert Entries(rs)[..i + 1] == Entries(rs)[..i] + [EntryOf(rs[i])];
      out := out + [EntryOf(rs[i])];
    }
    assert Entries(rs)[..|rs|] == Entries(rs);
  }

  /** One bucket: its size and its indices. */
  method PutBucket(os: Stream, bucket: seq<int>) returns (out: Stream)
    ensures out == os + [IntOf(|bucket|)] + Ints(bucket)
  {
    out := os + [IntOf(|bucket|)];
    ghost var start := out;
    for i := 0 to |bucket|
      invariant out == start + Ints(bucket)[..i]
    {
      assert Ints(bucket)[..i + 1] == Ints(bucket)[..i] + [IntOf(bucket[i])];
      out := out + [IntOf(bucket[i])];
    }
    assert Ints(bucket)[..|bucket|] == Ints(bucket);
  }

  /** The file as `Serialize` puts it on the stream. */
  method Emit(f: File) returns (out: Stream)
    requires 0 <= f.version < 256
    ensures out == Emitted(f)
  {
    hide Entries, Ints, Toggled;
    out := [ByteOf(f.version), ByteOf(32), KeyOf(f.key), IntOf(|f.entries|), IntOf(|f.triedEntries|)];
    out := out + [IntOf(Marked(f.version, |f.buckets|))];
    out := PutEntries(out, f.entries);
    out := PutEntries(out, f.triedEntries);
    var b := 0;
    assert f.buckets[0..] == f.buckets;
    while b < |f.buckets|
      invariant 0 <= b <= |f.buckets| && out + Lists(f.buckets[b..]) == Emitted(f)
    {
      assert f.buckets[b..][1..] == f.buckets[b + 1..];
      ghost var before := out;
      out := PutBucket(out, f.buckets[b]);
      assert before + Lists(f.buckets[b..]) == out + Lists(f.buckets[b + 1..]);
      b := b + 1;
    }
  }

  /** The part of `Unserialize` that takes the lists of the buckets off the stream. */
  method TakeLists(s0: Stream, n: int) returns (r: Option<(seq<seq<int>>, Stream)>)
    ensures r == ReadLists(s0, Turns(n))
  {
    hide TakeInts, AllInts;
    var buckets: seq<seq<int>> := [];
    var s, bucket := s0, 0;
    assert [] + (if ReadLists(s0, Turns(n)).Some? then ReadLists(s0, Turns(n)).value.0 else []) ==
      if ReadLists(s0, Turns(n)).Some? then ReadLists(s0, Turns(n)).value.0 else [];
    while bucket < n
      invariant 0 <= bucket <= Turns(n)
      invariant ReadLists(s0, Turns(n)) ==
        match ReadLists(s, Turns(n) - bucket)
        case None => None
        case Some((bs, rest)) => Some((buckets + bs, rest))
    {
      if s == [] || !s[0].IntOf? || !AllInts(s[1..], Turns(s[0].n)) {
        return None;
      }
      var k := Turns(s[0].n);
      AtMostInts(s[1..], k);
      var list := TakeInts(s[1..], k);
      Regrouped(buckets, list, ReadLists(s[1 + k..], Turns(n) - bucket - 1));
      buckets, s := buckets + [list], s[1 + k..];
      bucket := bucket + 1;
    }
    assert buckets + [] == buckets;
    r := Some((buckets, s));
  }

  lemma AtMostInts(s: Stream, n: nat)
    requires AllInts(s, n)
    ensures n <= |s|
  {
  }

  lemma Regrouped(a: seq<seq<int>>, x: seq<int>, r: Option<(seq<seq<int>>, Stream)>)
    ensures r.Some? ==> a + ([x] + r.value.0) == a + [x] + r.value.0
  {
  }

  method Parse(s: Stream) returns (r: Outcome)
    ensures r == Parsed(s)
  {
    hide ReadLists, TakeEntries, AllEntries, Toggled;
    if !HasHeader(s) || s[1].b != 32 {
      return Refused;
    }
    var nNew, nTried, nUBuckets := s[3].n, s[4].n, s[5].n;
    if s[0].b != 0 {
      nUBuckets := Toggled(nUBuckets);
    }
    if nNew < 0 || nTried < 0 {
      return Miscounted;
    }
    var s1 := s[6..];
    if !AllEntries(s1, nNew) {
      return Refused;
    }
    assert nNew <= |s1| by { Taken(s1, nNew); AtMost(s1, nNew); }
    if !AllEntries(s1[nNew..], nTried) {
      return Refused;
    }
    assert nTried <= |s1[nNew..]| by { AtMost(s1[nNew..], nTried); }
    var lists := TakeLists(s1[nNew + nTried..], nUBuckets);
    if lists.None? {
      return Refused;
    }
    r := Read(File(s[0].b, s[2].key, TakeEntries(s1, nNew), TakeEntries(s1[nNew..], nTried), lists.value.0), lists.value.1);
  }

  lemma AtMost(s: Stream, n: nat)
    requires AllEntries(s, n)
    ensures n <= |s|
  {
  }

  /** A manager written to a stream and read from it into a new one: the same up to names, and the rest of the stream is left. */
  method ThroughStream(m: AddrManager, key: Key, rest: Stream) returns (r: AddrManager, left: Stream)
    requires m.Valid()
    ensures r.Valid() && SameUpToNames(m.Contents(), r.Contents()) && left == rest
  {
    hide IndexOk, NewTableOk, TriedTableOk, EntriesOk, CountsOk, AddrOk, TimesOk, TableOf, Loaded, SameUpToNames, Emitted, Parsed;
    hide Listing, BucketList, Records, NewList, TriedList, UnsharedFile;
    RoundTrip(m.h, m.Contents());
    var f := Serialize(m);
    var s := Emit(f);
    ParsedEmitted(f, rest);
    var o := Parse(s + rest);
    r := new AddrManager(m.h, key);
    Unserialize(r, o.f);
    left := o.rest;
  }
}
