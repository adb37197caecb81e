/**
 The open-addressing hash index behind a primary key: linear probing, growth at
 three quarters full, and no deletion. Abstractly it is a bag of (hash, row) pairs.
 */
module RowIndexes {

  datatype Slot = Empty | Entry(hash: nat, row: nat)

  const INITIAL_CAP: nat := 8

  /******* The probe sequence on a slot array *******/

  /** j lies on the cyclic stretch of slots from start up to and including i. */
  predicate OnArc(start: nat, i: nat, j: nat) {
    if start <= i then start <= j <= i else j >= start || j <= i
  }

  /** Slots a probe from start passes before it reaches i. */
  function Steps(start: nat, i: nat, cap: nat): int {
    if start <= i then i - start else i - start + cap
  }

  /** Every entry can be reached from its home slot without crossing an empty slot. */
  ghost predicate Reachable(s: seq<Slot>) {
    forall i, j :: 0 <= i < |s| && s[i].Entry? && 0 <= j < |s| && OnArc(s[i].hash % |s|, i, j) ==> s[j].Entry?
  }

  /** The rows a probe from slot i visits for this hash in at most fuel steps. */
  function Probe(s: seq<Slot>, hash: nat, i: nat, fuel: nat): seq<nat>
    requires i < |s|
    decreases fuel
  {
    if fuel == 0 || s[i].Empty? then []
    else if s[i].hash != hash then Probe(s, hash, Next(i, |s|), fuel - 1)
    else [s[i].row] + Probe(s, hash, Next(i, |s|), fuel - 1)
  }

  function Next(i: nat, cap: nat): nat {
    if i + 1 < cap then i + 1 else 0
  }

  /** Everything a visitor that never stops is shown for this hash. */
  function Visits(s: seq<Slot>, hash: nat): seq<nat> {
    if |s| == 0 then [] else Probe(s, hash, hash % |s|, |s|)
  }

  /** What a visitor is shown that stops at the first row satisfying stop. */
  function ProbeUntil(s: seq<Slot>, hash: nat, i: nat, fuel: nat, stop: nat -> bool): seq<nat>
    requires i < |s|
    decreases fuel
  {
    if fuel == 0 || s[i].Empty? then []
    else if s[i].hash != hash then ProbeUntil(s, hash, Next(i, |s|), fuel - 1, stop)
    else if stop(s[i].row) then [s[i].row]
    else [s[i].row] + ProbeUntil(s, hash, Next(i, |s|), fuel - 1, stop)
  }

  function VisitsUntil(s: seq<Slot>, hash: nat, stop: nat -> bool): seq<nat> {
    if |s| == 0 then [] else ProbeUntil(s, hash, hash % |s|, |s|, stop)
  }

  predicate EndsIn(rows: seq<nat>, stop: nat -> bool) {
    rows != [] && stop(rows[|rows| - 1])
  }

  /** A stopping visitor stops exactly when some visited row satisfies stop, and otherwise sees every row. */
  lemma {:induction false} ProbeUntilFindsAny(s: seq<Slot>, hash: nat, i: nat, fuel: nat, stop: nat -> bool)
    requires i < |s|
    ensures EndsIn(ProbeUntil(s, hash, i, fuel, stop), stop) <==> exists r :: r in Probe(s, hash, i, fuel) && stop(r)
    ensures !EndsIn(ProbeUntil(s, hash, i, fuel, stop), stop) ==> ProbeUntil(s, hash, i, fuel, stop) == Probe(s, hash, i, fuel)
    decreases fuel
  {
    if fuel > 0 && s[i].Entry? {
      ProbeUntilFindsAny(s, hash, Next(i, |s|), fuel - 1, stop);
      var all, seen := Probe(s, hash, Next(i, |s|), fuel - 1), ProbeUntil(s, hash, Next(i, |s|), fuel - 1, stop);
      if s[i].hash != hash {
      } else if stop(s[i].row) {
        assert s[i].row in [s[i].row] + all;
      } else {
        assert EndsIn([s[i].row] + seen, stop) <==> EndsIn(seen, stop);
        assert forall r :: r in [s[i].row] + all <==> r == s[i].row || r in all;
      }
    }
  }

  lemma VisitsUntilFindsAny(s: seq<Slot>, hash: nat, stop: nat -> bool)
    ensures EndsIn(VisitsUntil(s, hash, stop), stop) <==> exists r :: r in Visits(s, hash) && stop(r)
    ensures (forall r :: !stop(r)) ==> VisitsUntil(s, hash, stop) == Visits(s, hash)
  {
    if |s| > 0 {
      ProbeUntilFindsAny(s, hash, hash % |s|, |s|, stop);
    }
  }

  /** The bag of stored pairs. */
  function Bag(s: seq<Slot>): multiset<Slot> {
    multiset(s)[Empty := 0]
  }

  /** No pair is stored twice. */
  ghost predicate DistinctPairs(bag: multiset<Slot>) {
    forall h, r :: bag[Entry(h, r)] <= 1
  }

  /** No pair names the row. */
  ghost predicate Unnamed(bag: multiset<Slot>, r: nat) {
    forall h :: bag[Entry(h, r)] == 0
  }

  /** A cell of the row was written: a key cell's pair is added, even if it was there, or memory ran out. */
  predicate PairWritten(bag: multiset<Slot>, bag': multiset<Slot>, hash: nat, r: nat, key: bool, degraded: bool) {
    bag' == (if key then bag + multiset{Entry(hash, r)} else bag) || (bag' == bag && degraded)
  }

  /** While pairs are distinct, the write keeps them so exactly if it does not repeat a pair. */
  lemma DistinctExactly(bag: multiset<Slot>, bag': multiset<Slot>, hash: nat, r: nat, key: bool)
    requires PairWritten(bag, bag', hash, r, key, false) && DistinctPairs(bag)
    ensures DistinctPairs(bag') <==> !(key && bag[Entry(hash, r)] == 1)
  {
    if key && bag[Entry(hash, r)] == 1 {
      assert bag'[Entry(hash, r)] == 2;
    }
  }

  /** At most one pair more, of this row, and none unless the column is the key. */
  ghost predicate OneMoreAtMost(bag: multiset<Slot>, bag': multiset<Slot>, r: nat, key: bool) {
    bag' == bag || (key && exists h :: bag' == bag + multiset{Entry(h, r)})
  }

  /** A row that is given each cell once gets one pair at most, so INSERT keeps the pairs distinct. */
  lemma OnePairPerRow(bag: multiset<Slot>, bag': multiset<Slot>, r: nat, key: bool)
    requires OneMoreAtMost(bag, bag', r, key) && DistinctPairs(bag)
    ensures Unnamed(bag, r) || !key ==> DistinctPairs(bag')
    ensures Unnamed(bag, r) && !key ==> Unnamed(bag', r)
  {
  }

  /** The slots in the order a probe starting at i meets them. */
  function Rotate(s: seq<Slot>, i: nat): seq<Slot>
    requires i < |s|
  {
    s[i..] + s[..i]
  }

  lemma RotateNext(s: seq<Slot>, i: nat, k: nat)
    requires i < |s| && k < |s|
    ensures Rotate(s, i)[..k + 1] == [s[i]] + Rotate(s, Next(i, |s|))[..k]
    ensures k + 1 < |s| ==> Rotate(s, i)[k + 1] == Rotate(s, Next(i, |s|))[k]
  {
    var here, next := Rotate(s, i), Rotate(s, Next(i, |s|));
    assert here[0] == s[i];
    forall j | 0 <= j < |s| - 1 ensures here[j + 1] == next[j] {
      assert here[j + 1] == s[Position(i, j + 1, |s|)];
    }
  }

  lemma CountCons<T>(x: T, rest: seq<T>, y: T)
    ensures multiset([x] + rest)[y] == multiset(rest)[y] + if x == y then 1 else 0
  {
  }

  /** A probe of at most fuel steps collects the entries of its hash up to the first empty slot, k steps away. */
  lemma {:induction false} ProbeCollects(s: seq<Slot>, hash: nat, i: nat, fuel: nat, row: nat) returns (k: nat)
    requires i < |s| && fuel <= |s|
    ensures k <= fuel && multiset(Probe(s, hash, i, fuel))[row] == multiset(Rotate(s, i)[.. k])[Entry(hash, row)]
    ensures k < fuel ==> Rotate(s, i)[k].Empty?
    decreases fuel
  {
    if fuel == 0 || s[i].Empty? {
      return 0;
    }
    var n := Next(i, |s|);
    var k' := ProbeCollects(s, hash, n, fuel - 1, row);
    RotateNext(s, i, k');
    k := k' + 1;
    CountCons(s[i], Rotate(s, n)[..k'], Entry(hash, row));
    if s[i].hash == hash {
      CountCons(s[i].row, Probe(s, hash, n, fuel - 1), row);
    }
  }

  /** Beyond the first empty slot of a probe there is no entry of the probed hash. */
  lemma NoEntryBeyond(s: seq<Slot>, hash: nat, k: nat, m: nat)
    requires Reachable(s) && k <= m < |s| && Rotate(s, hash % |s|)[k].Empty?
    ensures !(Rotate(s, hash % |s|)[m].Entry? && Rotate(s, hash % |s|)[m].hash == hash)
  {
    var start := hash % |s|;
    var i, e := Position(start, m, |s|), Position(start, k, |s|);
    assert Rotate(s, start)[m] == s[i] && Rotate(s, start)[k] == s[e];
    assert OnArc(start, i, e);
  }

  function Position(start: nat, m: nat, cap: nat): nat
    requires start < cap && m < cap
    ensures Position(start, m, cap) < cap
  {
    if start + m < cap then start + m else start + m - cap
  }

  /** Refinement: a full visit shows each pair of the hash exactly as often as it was inserted. */
  lemma VisitsRefineBag(s: seq<Slot>, hash: nat, row: nat)
    requires Reachable(s)
    ensures multiset(Visits(s, hash))[row] == Bag(s)[Entry(hash, row)]
  {
    if |s| > 0 {
      var start := hash % |s|;
      var rot := Rotate(s, start);
      var k := ProbeCollects(s, hash, start, |s|, row);
      forall m | k <= m < |s| ensures rot[m] != Entry(hash, row) {
        NoEntryBeyond(s, hash, k, m);
      }
      assert Entry(hash, row) !in rot[k..];
      assert rot == rot[..k] + rot[k..];
      RotateKeepsBag(s, start);
    }
  }

  lemma RotateKeepsBag(s: seq<Slot>, i: nat)
    requires i < |s|
    ensures multiset(Rotate(s, i)) == multiset(s)
  {
    assert s == s[..i] + s[i..];
  }

  /** Writing an entry into the first empty slot of its own probe keeps every entry reachable. */
  lemma FillKeepsReachable(s: seq<Slot>, hash: nat, row: nat, i: nat)
    requires i < |s| && Reachable(s) && s[i].Empty?
    requires forall j :: 0 <= j < |s| && OnArc(hash % |s|, i, j) && j != i ==> s[j].Entry?
    ensures Reachable(s[i := Entry(hash, row)])
    ensures Bag(s[i := Entry(hash, row)]) == Bag(s) + multiset{Entry(hash, row)}
    ensures multiset(s[i := Entry(hash, row)])[Empty] == multiset(s)[Empty] - 1
  {
  }

  /******* The index object *******/

  lemma CapacityDoubles(n: nat)
    requires Capacity(n)
    ensures n > 0 ==> n >= INITIAL_CAP && Capacity(2 * n)
  {
    assert 2 * n / 2 == n;
  }

  /** Zero, or eight doubled: so masking with the capacity minus one is the remainder by it. */
  predicate Capacity(n: nat) {
    n == 0 || n == INITIAL_CAP || (n > INITIAL_CAP && n % 2 == 0 && Capacity(n / 2))
  }

  class RowIndex {
    var slots: array<Slot>
    var count: nat
    var degraded: bool

    /** At most three quarters of the slots are taken, so every probe meets a free one. */
    ghost predicate Valid()
      reads this, slots
    {
      && Capacity(slots.Length)
      && Reachable(slots[..])
      && count <= slots.Length / 4 * 3
      && count + multiset(slots[..])[Empty] == slots.Length
    }

    ghost function Pairs(): multiset<Slot>
      reads this, slots
    {
      Bag(slots[..])
    }

    constructor ()
      ensures Valid() && Pairs() == multiset{} && !degraded && fresh(slots)
    {
      slots := new Slot[0];
      count := 0;
      degraded := false;
    }

    predicate NeedsGrow()
      reads this
    {
      slots.Length == 0 || count >= slots.Length / 4 * 3
    }

    /** Terminates because at least one slot is empty: the distance to it shrinks. */
    static method RawInsert(slots: array<Slot>, hash: nat, row: nat)
      requires Reachable(slots[..]) && multiset(slots[..])[Empty] > 0
      modifies slots
      ensures Reachable(slots[..])
      ensures Bag(slots[..]) == old(Bag(slots[..])) + multiset{Entry(hash, row)}
      ensures multiset(slots[..])[Empty] == old(multiset(slots[..])[Empty]) - 1
    {
      assert Empty in slots[..];
      ghost var free :| 0 <= free < slots.Length && slots[free] == Empty;
      var start := hash % slots.Length;
      var i := start;
      while slots[i].Entry?
        invariant 0 <= i < slots.Length
        invariant slots[..] == old(slots[..])
        invariant forall j :: 0 <= j < slots.Length && OnArc(start, i, j) && j != i ==> slots[j].Entry?
        invariant Steps(start, i, slots.Length) + Steps(i, free, slots.Length) == Steps(start, free, slots.Length)
        decreases Steps(i, free, slots.Length)
      {
        i := Next(i, slots.Length);
      }
      FillKeepsReachable(slots[..], hash, row, i);
      slots[i] := Entry(hash, row);
      assert slots[..] == old(slots[..])[i := Entry(hash, row)];
    }

    /** A larger slot array holding the same pairs. */
    static method Rehash(slots: array<Slot>, newCap: nat) returns (grown: array<Slot>)
      requires slots.Length < newCap
      ensures fresh(grown) && grown.Length == newCap
      ensures Reachable(grown[..]) && Bag(grown[..]) == Bag(slots[..])
    {
      grown := new Slot[newCap](_ => Empty);
      AllEmpty(grown[..]);
      var i := 0;
      while i < slots.Length
        invariant 0 <= i <= slots.Length && fresh(grown) && grown.Length == newCap
        invariant Reachable(grown[..]) && Bag(grown[..]) == Bag(slots[..][..i])
        invariant multiset(grown[..])[Empty] >= newCap - i
      {
        BagStep(slots[..], i);
        if slots[i].Entry? {
          RawInsert(grown, slots[i].hash, slots[i].row);
        }
        i := i + 1;
      }
      assert slots[..][..i] == slots[..];
    }

    /** Doubles the capacity and re-inserts every entry; memory says whether the arena could provide it. */
    method Grow(memory: bool) returns (ok: bool)
      requires Valid()
      modifies this`slots
      ensures ok == memory && Valid() && Pairs() == old(Pairs())
      ensures ok ==> fresh(slots) && slots.Length == (if old(slots.Length) == 0 then INITIAL_CAP else 2 * old(slots.Length))
      ensures !ok ==> slots == old(slots)
    {
      if !memory {
        return false;
      }
      BagSize(slots[..]);
      CapacityDoubles(slots.Length);
      slots := Rehash(slots, if slots.Length == 0 then INITIAL_CAP else 2 * slots.Length);
      BagSize(slots[..]);
      return true;
    }

    /** Adds one pair; if growth fails the pair is dropped and the index is degraded for good. */
    method Insert(hash: nat, row: nat, memory: bool)
      requires Valid()
      modifies this, slots
      ensures Valid() && (slots == old(slots) || fresh(slots))
      ensures degraded <==> old(degraded) || Pairs() != old(Pairs()) + multiset{Entry(hash, row)}
      ensures Pairs() == old(Pairs()) || Pairs() == old(Pairs()) + multiset{Entry(hash, row)}
      ensures memory ==> Pairs() == old(Pairs()) + multiset{Entry(hash, row)}
    {
      ghost var before := Pairs();
      if NeedsGrow() {
        var grown := Grow(memory);
        if !grown {
          degraded := true;
          assert before[Entry(hash, row)] != (before + multiset{Entry(hash, row)})[Entry(hash, row)];
          return;
        }
      }
      RawInsert(slots, hash, row);
      count := count + 1;
    }

    predicate Usable()
      reads this
    {
      !degraded
    }

    /** Shows a visitor the pairs of one hash, until it stops. */
    method Find(hash: nat, stop: nat -> bool) returns (visited: seq<nat>)
      ensures visited == VisitsUntil(slots[..], hash, stop)
    {
      visited := [];
      if slots.Length == 0 {
        return;
      }
      ghost var s := slots[..];
      var i := hash % slots.Length;
      var probes := 0;
      while probes < slots.Length
        invariant 0 <= probes <= slots.Length && 0 <= i < slots.Length
        invariant VisitsUntil(s, hash, stop) == visited + ProbeUntil(s, hash, i, slots.Length - probes, stop)
      {
        if slots[i].Empty? {
          return;
        }
        if slots[i].hash == hash {
          visited := visited + [slots[i].row];
          if stop(slots[i].row) {
            return;
          }
        }
        i := Next(i, slots.Length);
        probes := probes + 1;
      }
    }

    method Clear()
      modifies this
      ensures Valid() && Pairs() == multiset{} && !degraded && fresh(slots)
    {
      slots := new Slot[0];
      count := 0;
      degraded := false;
    }
  }

  lemma {:induction false} AllEmpty(s: seq<Slot>)
    requires forall i :: 0 <= i < |s| ==> s[i] == Empty
    ensures Bag(s) == multiset{} && multiset(s)[Empty] == |s|
  {
    if s != [] {
      AllEmpty(s[1..]);
      assert s == [s[0]] + s[1..];
    }
  }

  lemma BagStep(s: seq<Slot>, i: nat)
    requires i < |s|
    ensures Bag(s[..i + 1]) == Bag(s[..i]) + if s[i].Entry? then multiset{s[i]} else multiset{}
  {
    assert s[..i + 1] == s[..i] + [s[i]];
  }

  lemma BagSize(s: seq<Slot>)
    ensures |Bag(s)| + multiset(s)[Empty] == |s|
  {
    var m := multiset(s);
    assert m == Bag(s) + multiset{}[Empty := m[Empty]];
    assert |multiset{}[Empty := m[Empty]]| == m[Empty];
  }
}
