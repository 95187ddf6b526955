// The statistics of flexfloat: open-addressed tables from the key of a format, or
// of a pair of formats, to a record of counters.

module StatsTable {
  import opened Bits
  import opened Shifts

  // ----------------------------------------------------------------------- keys

  function Xor(a: nat, b: nat): nat
    decreases a + b
  {
    if a == 0 && b == 0 then 0 else (a % 2 + b % 2) % 2 + 2 * Xor(a / 2, b / 2)
  }

  type Byte = b: nat | b < 256

  datatype Desc = Desc(expBits: Byte, fracBits: Byte)

  function PrecisionHash(d: Desc): nat { Xor(d.expBits, Shl(d.fracBits, 8)) }

  function PrecisionHash2(d1: Desc, d2: Desc): nat {
    Xor(Xor(Xor(d1.expBits, Shl(d1.fracBits, 8)), Shl(d2.expBits, 16)), Shl(d2.fracBits, 24))
  }

  lemma {:induction false} XorOfDisjoint(a: nat, b: nat, k: nat)
    requires a < Pow2(k)
    ensures Xor(a, Shl(b, k)) == a + Shl(b, k)
  {
    if k > 0 {
      XorOfDisjoint(a / 2, b, k - 1);
    } else {
      XorZero(b);
    }
  }

  lemma {:induction false} XorZero(b: nat)
    ensures Xor(0, b) == b
  {
    if b > 0 {
      XorZero(b / 2);
    }
  }

  lemma ByteShifts(b: nat)
    ensures Shl(b, 8) == 0x100 * b && Shl(b, 16) == 0x1_0000 * b && Shl(b, 24) == 0x100_0000 * b
  {
    ShlIsTimes(b, 8);
    ShlIsTimes(b, 16);
    ShlIsTimes(b, 24);
    ShlShl(1, 8, 8);
    ShlShl(1, 16, 8);
    assert Shl(0x100, 8) == 0x1_0000;
    assert Shl(0x1_0000, 8) == 0x100_0000;
  }

  /** The hashes lay the bytes side by side, so they are the formats themselves. */
  lemma HashValue(d: Desc)
    ensures PrecisionHash(d) == d.expBits + 0x100 * d.fracBits
  {
    ByteShifts(1);
    ByteShifts(d.fracBits);
    XorOfDisjoint(d.expBits, d.fracBits, 8);
  }

  lemma Hash2Value(d1: Desc, d2: Desc)
    ensures PrecisionHash2(d1, d2) == PrecisionHash(d1) + 0x1_0000 * PrecisionHash(d2)
  {
    hide Xor, Shl;
    HashValue(d1);
    HashValue(d2);
    ByteShifts(1);
    ByteShifts(d2.expBits);
    ByteShifts(d2.fracBits);
    XorOfDisjoint(PrecisionHash(d1), d2.expBits, 16);
    XorOfDisjoint(PrecisionHash(d1) + 0x1_0000 * d2.expBits, d2.fracBits, 24);
  }

  lemma HashIsInjective(c: Desc, d: Desc)
    ensures PrecisionHash(c) == PrecisionHash(d) <==> c == d
    ensures PrecisionHash(d) == 0 <==> d == Desc(0, 0)
  {
    hide PrecisionHash;
    HashValue(c);
    HashValue(d);
  }

  lemma Hash2IsInjective(c1: Desc, c2: Desc, d1: Desc, d2: Desc)
    ensures PrecisionHash2(c1, c2) == PrecisionHash2(d1, d2) <==> (c1, c2) == (d1, d2)
    ensures PrecisionHash2(d1, d2) == 0 <==> d1 == d2 == Desc(0, 0)
  {
    hide PrecisionHash, PrecisionHash2;
    Hash2Value(c1, c2);
    Hash2Value(d1, d2);
    HashIsInjective(c1, d1);
    HashIsInjective(c2, d2);
    HashValue(c1);
    HashValue(d1);
  }

  // ----------------------------------------------------------------- probe order

  function Home(key: nat, n: nat): (h: nat)
    requires n > 0
    ensures h < n && (key < n ==> h == key)
  {
    key % n
  }

  function Next(i: nat, n: nat): (j: nat)
    requires i < n
    ensures j == if i + 1 == n then 0 else i + 1
  {
    (i + 1) % n
  }

  /** Steps from slot i to slot j. */
  function Gap(i: nat, j: nat, n: nat): nat
    requires i < n && j < n
  {
    if i <= j then j - i else j - i + n
  }

  lemma GapIsInjective(h: nat, i: nat, j: nat, n: nat)
    requires h < n && i < n && j < n
    ensures i == j <==> Gap(h, i, n) == Gap(h, j, n)
  {
  }

  /** The slot after k steps. */
  function ProbeAt(h: nat, k: nat, n: nat): (i: nat)
    requires h < n
    ensures i < n && (k < n ==> Gap(h, i, n) == k)
  {
    if k == 0 then h else Next(ProbeAt(h, k - 1, n), n)
  }

  lemma {:induction false} ProbeReaches(h: nat, t: nat, k: nat, n: nat)
    requires h < n && t < n && k <= Gap(h, t, n)
    ensures Gap(ProbeAt(h, k, n), t, n) == Gap(h, t, n) - k
  {
    if k > 0 {
      ProbeReaches(h, t, k - 1, n);
    }
  }

  datatype Slot<V> = Slot(key: nat, value: V)

  predicate Stops<V>(s: seq<Slot<V>>, key: nat, i: nat) requires i < |s| { s[i].key == 0 || s[i].key == key }

  /** The search loop ends, from whatever slot the key starts at, exactly if some
      slot is empty or holds the key. */
  lemma SearchEndsIff<V>(s: seq<Slot<V>>, key: nat)
    requires |s| > 0
    ensures (exists k: nat :: Stops(s, key, ProbeAt(Home(key, |s|), k, |s|)))
       <==> (exists t: nat :: t < |s| && Stops(s, key, t))
  {
    var h := Home(key, |s|);
    if t: nat :| t < |s| && Stops(s, key, t) {
      var k := Gap(h, t, |s|);
      ProbeReaches(h, t, k, |s|);
      assert Stops(s, key, ProbeAt(h, k, |s|));
    }
  }

  /** The insertion loop is still running after k rounds, all slots so far taken. */
  predicate Walks<V>(s: seq<Slot<V>>, key: nat, k: nat)
    requires |s| > 0
  {
    forall j: nat :: j < k ==> s[ProbeAt(Home(key, |s|), j, |s|)].key != 0
  }

  /** Its assertion, made after each round, compares the slot with the unreduced key. */
  predicate AssertionFails<V>(s: seq<Slot<V>>, key: nat, k: nat)
    requires |s| > 0
  {
    k > 0 && Walks(s, key, k) && ProbeAt(Home(key, |s|), k, |s|) == key
  }

  predicate Full<V>(s: seq<Slot<V>>) { forall i :: 0 <= i < |s| ==> s[i].key != 0 }

  /** The insertion loop finds a slot exactly if there is an empty one. */
  lemma InsertEndsIff<V>(s: seq<Slot<V>>, key: nat)
    requires |s| > 0
    ensures (exists k: nat :: !Walks(s, key, k)) <==> !Full(s)
  {
    var h := Home(key, |s|);
    if !Full(s) {
      var t: nat :| t < |s| && s[t].key == 0;
      var k := Gap(h, t, |s|);
      ProbeReaches(h, t, k, |s|);
      assert s[ProbeAt(h, k, |s|)].key == 0;
      assert !Walks(s, key, k + 1);
    }
  }

  /** A walk around the whole table has seen every slot. */
  lemma RoundTripIsFull<V>(s: seq<Slot<V>>, key: nat, k: nat)
    requires |s| > 0 && Walks(s, key, k) && k >= |s|
    ensures Full(s)
  {
    var h := Home(key, |s|);
    forall i: nat | i < |s| ensures s[i].key != 0 {
      ProbeReaches(h, i, Gap(h, i, |s|), |s|);
      assert ProbeAt(h, Gap(h, i, |s|), |s|) == i;
    }
  }

  /** The assertion fails exactly in a full table for a key that is a slot number; in
      a full table with any other key the loop neither ends nor is stopped. */
  lemma FullTableIsCaughtIff<V>(s: seq<Slot<V>>, key: nat)
    requires |s| > 0
    ensures (exists k: nat :: AssertionFails(s, key, k)) <==> Full(s) && key < |s|
  {
    var h, n := Home(key, |s|), |s|;
    if k: nat :| AssertionFails(s, key, k) {
      assert k >= n;
      RoundTripIsFull(s, key, k);
    }
    if Full(s) && key < n {
      assert Gap(h, ProbeAt(h, n - 1, n), n) == n - 1;
      assert ProbeAt(h, n, n) == key && Walks(s, key, n);
      assert AssertionFails(s, key, n);
    }
  }

  // ------------------------------------------------------------- well-formed slots

  /** The slots between a key's home and its place are taken, by other keys. */
  ghost predicate Chained<V>(s: seq<Slot<V>>) {
    forall j: nat, p: nat :: j < |s| && p < |s| && s[j].key != 0
      && Gap(Home(s[j].key, |s|), p, |s|) < Gap(Home(s[j].key, |s|), j, |s|)
      ==> s[p].key != 0 && s[p].key != s[j].key
  }

  /** All slots on the way from the home of key to i hold other keys. */
  ghost predicate Passed<V>(s: seq<Slot<V>>, key: nat, i: nat)
    requires i < |s|
  {
    forall p: nat :: p < |s| && Gap(Home(key, |s|), p, |s|) < Gap(Home(key, |s|), i, |s|)
      ==> s[p].key != 0 && s[p].key != key
  }

  /** One more slot passed; on the way to t the walk does not come home again. */
  lemma PassOne<V>(s: seq<Slot<V>>, key: nat, i: nat, t: nat)
    requires i < |s| && t < |s| && i != t && Passed(s, key, i) && !Stops(s, key, i)
    requires Gap(Home(key, |s|), i, |s|) <= Gap(Home(key, |s|), t, |s|)
    ensures var j := Next(i, |s|);
            && Passed(s, key, j) && j != Home(key, |s|) && Gap(j, t, |s|) < Gap(i, t, |s|)
            && Gap(Home(key, |s|), j, |s|) <= Gap(Home(key, |s|), t, |s|)
  {
  }

  lemma PassNone<V>(s: seq<Slot<V>>, key: nat)
    requires |s| > 0
    ensures Passed(s, key, Home(key, |s|)) && Gap(Home(key, |s|), Home(key, |s|), |s|) == 0
  {
  }

  lemma KeysAreDistinct<V>(s: seq<Slot<V>>, i: nat, j: nat)
    requires Chained(s) && i < |s| && j < |s| && s[i].key == s[j].key != 0
    ensures i == j
  {
    GapIsInjective(Home(s[i].key, |s|), i, j, |s|);
  }

  /** An empty slot ends the chain of its key: the key is nowhere. */
  lemma EmptyMeansAbsent<V>(s: seq<Slot<V>>, key: nat, i: nat, j: nat)
    requires Chained(s) && key != 0 && i < |s| && j < |s| && s[i].key == 0 && Passed(s, key, i)
    ensures s[j].key != key
  {
    GapIsInjective(Home(key, |s|), i, j, |s|);
  }

  lemma InsertKeepsChained<V>(s: seq<Slot<V>>, key: nat, i: nat, v: V)
    requires i < |s| && s[i].key == 0
    ensures Chained(s) && Passed(s, key, i) ==> Chained(s[i := Slot(key, v)])
  {
    if Chained(s) && Passed(s, key, i) {
      var t := s[i := Slot(key, v)];
      forall j: nat, p: nat | j < |t| && p < |t| && t[j].key != 0
        && Gap(Home(t[j].key, |t|), p, |t|) < Gap(Home(t[j].key, |t|), j, |t|)
        ensures t[p].key != 0 && t[p].key != t[j].key
      {
        assert j != i ==> p != i;
      }
    }
  }

  // ---------------------------------------------------------- slots and their keys

  function KeySet<V>(s: seq<Slot<V>>): set<nat> { set i | 0 <= i < |s| :: s[i].key }

  lemma DistinctPair<V>(s: seq<Slot<V>>, i: nat, j: nat)
    requires Chained(s) && i < j < |s| && s[i].key != 0
    ensures s[i].key != s[j].key
  {
    if s[i].key == s[j].key {
      KeysAreDistinct(s, i, j);
    }
  }

  lemma {:induction false} DistinctKeys<V>(s: seq<Slot<V>>, i: nat)
    requires Chained(s) && i <= |s| && forall j :: 0 <= j < i ==> s[j].key != 0
    ensures |KeySet(s[..i])| == i
  {
    hide Chained;
    if i > 0 {
      DistinctKeys(s, i - 1);
      var last := s[i - 1].key;
      forall j: nat | j < i - 1 ensures s[j].key != last {
        DistinctPair(s, j, i - 1);
      }
      assert KeySet(s[..i]) == KeySet(s[..i - 1]) + {last};
    } else {
      assert KeySet(s[..0]) == {};
    }
  }

  lemma {:induction false} SubsetIsSmaller(a: set<nat>, b: set<nat>)
    requires a <= b
    ensures |a| <= |b|
  {
    if a != {} {
      var x :| x in a;
      SubsetIsSmaller(a - {x}, b - {x});
    }
  }

  // ------------------------------------------------------------------- the tables

  const WRAP := 0x1_0000_0000_0000_0000

  /** OpStats has six counters, CastStats one. */
  class Record {
    var counters: seq<nat>

    constructor (width: nat)
      ensures counters == seq(width, _ => 0)
    {
      counters := seq(width, _ => 0);
    }
  }

  /** The counters of every format after one more count of c for the format of key. */
  function Bumped(m: map<nat, seq<nat>>, width: nat, key: nat, c: nat): (r: map<nat, seq<nat>>)
    requires c < width && forall k :: k in m ==> |m[k]| == width
    ensures forall k :: k in r ==> |r[k]| == width
  {
    var before := if key in m then m[key] else seq(width, _ => 0);
    m[key := before[c := (before[c] + 1) % WRAP]]
  }

  /** A new record starts with zeros: making it first changes nothing. */
  lemma BumpedFromZero(m: map<nat, seq<nat>>, width: nat, key: nat, c: nat)
    requires c < width && forall k :: k in m ==> |m[k]| == width
    ensures key !in m ==> Bumped(m[key := seq(width, _ => 0)], width, key, c) == Bumped(m, width, key, c)
  {
  }

  datatype Call = Call(key: nat, counter: nat)

  /** The counters after a sequence of counts, and how often one was counted. */
  function Tally(width: nat, calls: seq<Call>): (r: map<nat, seq<nat>>)
    requires forall x :: x in calls ==> x.counter < width
    ensures forall k :: k in r ==> |r[k]| == width
  {
    if calls == [] then map[]
    else
      var last := calls[|calls| - 1];
      Bumped(Tally(width, calls[..|calls| - 1]), width, last.key, last.counter)
  }

  function Times(calls: seq<Call>, call: Call): nat {
    if calls == [] then 0
    else Times(calls[..|calls| - 1], call) + if calls[|calls| - 1] == call then 1 else 0
  }

  lemma {:induction false} TimesOfAbsent(calls: seq<Call>, call: Call)
    requires forall x :: x in calls ==> x.key != call.key
    ensures Times(calls, call) == 0
  {
    if calls != [] {
      TimesOfAbsent(calls[..|calls| - 1], call);
    }
  }

  lemma BumpedCounts(m: map<nat, seq<nat>>, width: nat, last: Call, call: Call)
    requires last.counter < width && call.counter < width && forall k :: k in m ==> |m[k]| == width
    ensures var r := Bumped(m, width, last.key, last.counter);
            var before := if call.key in m then m[call.key][call.counter] else 0;
            && (call.key in r <==> call.key in m || call.key == last.key)
            && (call.key in r ==> r[call.key][call.counter] == if call == last then (before + 1) % WRAP else before)
  {
  }

  /** Every counter of every format holds the number of its own counts, in 64 bits. */
  lemma {:induction false} TallyIsExact(width: nat, calls: seq<Call>, call: Call)
    requires (forall x :: x in calls ==> x.counter < width) && call.counter < width
    ensures call.key in Tally(width, calls) <==> exists x :: x in calls && x.key == call.key
    ensures call.key in Tally(width, calls) ==> Tally(width, calls)[call.key][call.counter] == Times(calls, call) % WRAP
  {
    hide Bumped;
    if calls != [] {
      var n := |calls| - 1;
      assert calls == calls[..n] + [calls[n]];
      TallyIsExact(width, calls[..n], call);
      BumpedCounts(Tally(width, calls[..n]), width, calls[n], call);
      if call.key !in Tally(width, calls[..n]) {
        TimesOfAbsent(calls[..n], call);
      }
    }
  }

  class Table {
    const slots: array<Slot<Record?>>
    const width: nat
    /** The record of every key that has been asked for. */
    ghost var content: map<nat, Record>

    ghost predicate Valid()
      reads this, slots
    {
      && slots.Length > 0 && Chained(slots[..])
      && (forall i :: 0 <= i < slots.Length && slots[i].key != 0 ==>
            slots[i].key in content && content[slots[i].key] == slots[i].value)
      && (forall k :: k in content ==> k != 0 && exists i :: 0 <= i < slots.Length && slots[i].key == k)
      && (forall k, l :: k in content && l in content && content[k] == content[l] ==> k == l)
    }

    ghost predicate HasEmpty()
      reads slots
    {
      exists i :: 0 <= i < slots.Length && slots[i].key == 0
    }

    constructor (size: nat, width: nat)
      requires size > 0
      ensures Valid() && content == map[] && slots.Length == size && this.width == width && fresh(slots)
    {
      slots := new Slot<Record?>[size](_ => Slot(0, null));
      this.width := width;
      content := map[];
    }

    /** As long as fewer formats than slots are in use, one slot is empty. */
    lemma FewFormatsLeaveASlot()
      requires Valid() && |content| < slots.Length
      ensures HasEmpty()
    {
      if !HasEmpty() {
        DistinctKeys(slots[..], slots.Length);
        assert slots[..][..slots.Length] == slots[..];
        SubsetIsSmaller(KeySet(slots[..]), content.Keys);
      }
    }

    method Search(key: nat) returns (r: Record?)
      requires Valid() && (HasEmpty() || key in content)
      ensures r == if key in content then content[key] else null
    {
      hide Gap, Passed, Chained, Home, Next;
      var n := slots.Length;
      ghost var s := slots[..];
      ghost var t: nat :| t < n && (slots[t].key == 0 || slots[t].key == key);
      var i: nat := Home(key, n);
      PassNone(s, key);
      while slots[i].key != 0
        invariant slots[..] == s && i < n && Passed(s, key, i)
        invariant Gap(Home(key, n), i, n) <= Gap(Home(key, n), t, n)
        decreases Gap(i, t, n)
      {
        if slots[i].key == key {
          return slots[i].value;
        }
        PassOne(s, key, i, t);
        i := Next(i, n);
      }
      if key in content {
        ghost var j: nat :| j < n && slots[j].key == key;
        EmptyMeansAbsent(s, key, i, j);
      }
      r := null;
    }

    /** The asserted bound on the probes is never met: one slot is empty. */
    method Insert(key: nat, value: Record)
      requires Valid() && HasEmpty() && key !in content && value !in content.Values
      modifies slots, this`content
      ensures Valid() && content == if key == 0 then old(content) else old(content)[key := value]
      ensures exists i :: 0 <= i < slots.Length && old(slots[i].key) == 0
                          && slots[..] == old(slots[..])[i := Slot(key, value)]
    {
      hide Gap, Passed, Chained, Home, Next;
      var n := slots.Length;
      ghost var s := slots[..];
      ghost var t: nat :| t < n && slots[t].key == 0;
      var i: nat := Home(key, n);
      PassNone(s, key);
      while slots[i].key != 0
        invariant slots[..] == s && content == old(content) && i < n && Passed(s, key, i)
        invariant Gap(Home(key, n), i, n) <= Gap(Home(key, n), t, n)
        decreases Gap(i, t, n)
      {
        assert s[i] == slots[i];
        PassOne(s, key, i, t);
        i := Next(i, n);
        assert i != key;
      }
      assert s[i] == slots[i];
      InsertKeepsChained<Record?>(s, key, i, value);
      Fill(i, key, value);
    }

    /** Takes an empty slot of the key's chain. */
    method Fill(i: nat, key: nat, value: Record)
      requires Valid() && i < slots.Length && slots[i].key == 0
      requires key !in content && value !in content.Values && Chained(slots[..][i := Slot(key, value)])
      modifies slots, this`content
      ensures Valid() && content == if key == 0 then old(content) else old(content)[key := value]
      ensures slots[..] == old(slots[..])[i := Slot(key, value)]
    {
      hide Chained;
      ghost var before := content;
      slots[i] := Slot(key, value);
      assert slots[..] == old(slots[..])[i := Slot(key, value)];
      if key != 0 {
        content := content[key := value];
      }
      forall k | k in content ensures k != 0 && exists j :: 0 <= j < slots.Length && slots[j].key == k {
        var j :| 0 <= j < slots.Length && if k in before then old(slots[j].key) == k else j == i;
        assert slots[j].key == k;
      }
    }

    ghost predicate Sized()
      reads this, content.Values
    {
      forall k :: k in content ==> |content[k].counters| == width
    }

    /** The counters as a map from keys, with the table abstracted away. */
    ghost function Counts(): map<nat, seq<nat>>
      reads this, content.Values
    {
      map k | k in content :: content[k].counters
    }

    /** getOpStats and getCastStats after hashing. */
    method Get(key: nat) returns (r: Record)
      requires Valid() && (HasEmpty() || key in content)
      modifies slots, this`content
      ensures Valid()
      ensures key in old(content) ==> r == old(content)[key] && content == old(content) && unchanged(slots)
      ensures key !in old(content) ==> fresh(r) && r.counters == seq(width, _ => 0)
      ensures key !in old(content) ==> content == if key == 0 then old(content) else old(content)[key := r]
      ensures Counts() == if key == 0 || key in old(content) then old(Counts())
                          else old(Counts())[key := seq(width, _ => 0)]
    {
      hide Valid;
      var found := Search(key);
      if found == null {
        r := new Record(width);
        Insert(key, r);
      } else {
        r := found;
      }
    }

    method GetOpStats(d: Desc) returns (r: Record)
      requires Valid() && (HasEmpty() || PrecisionHash(d) in content)
      modifies slots, this`content
      ensures Valid()
      ensures content == if d == Desc(0, 0) then old(content) else old(content)[PrecisionHash(d) := r]
      ensures PrecisionHash(d) in old(content) ==> r == old(content)[PrecisionHash(d)]
      ensures PrecisionHash(d) !in old(content) ==> fresh(r) && r.counters == seq(width, _ => 0)
      ensures Counts() == if d == Desc(0, 0) || PrecisionHash(d) in old(content) then old(Counts())
                          else old(Counts())[PrecisionHash(d) := seq(width, _ => 0)]
    {
      HashIsInjective(d, d);
      r := Get(PrecisionHash(d));
    }

    method GetCastStats(d1: Desc, d2: Desc) returns (r: Record)
      requires Valid() && (HasEmpty() || PrecisionHash2(d1, d2) in content)
      modifies slots, this`content
      ensures Valid()
      ensures content == if d1 == d2 == Desc(0, 0) then old(content) else old(content)[PrecisionHash2(d1, d2) := r]
      ensures PrecisionHash2(d1, d2) in old(content) ==> r == old(content)[PrecisionHash2(d1, d2)]
      ensures PrecisionHash2(d1, d2) !in old(content) ==> fresh(r) && r.counters == seq(width, _ => 0)
    {
      Hash2IsInjective(d1, d2, d1, d2);
      r := Get(PrecisionHash2(d1, d2));
    }

    /** Adds one to a counter of the record of key, and to nothing else. */
    method Increment(key: nat, c: nat)
      requires Valid() && Sized() && key in content && c < width
      modifies content[key]
      ensures Valid() && Sized() && Counts() == Bumped(old(Counts()), width, key, c)
    {
      hide Valid;
      RecordsDiffer(key);
      ghost var before := Counts();
      var r := Search(key);
      r.counters := r.counters[c := (r.counters[c] + 1) % WRAP];
      assert forall k :: k in content && k != key ==> content[k].counters == before[k];
    }

    lemma RecordsDiffer(key: nat)
      requires Valid() && key in content
      ensures forall k :: k in content && k != key ==> content[k] != content[key]
    {
      hide Chained;
    }

    /** What every arithmetic operator does when statistics are on: fetch the record
        of its format and add one to its own counter.  No other format's counters move.
        The format of no bits at all has key 0: its counts are lost. */
    method CountOp(enabled: bool, d: Desc, c: nat)
      requires Valid() && Sized() && c < width && (HasEmpty() || PrecisionHash(d) in content)
      modifies slots, this`content, content.Values
      ensures Valid() && Sized()
      ensures Counts() == if enabled && d != Desc(0, 0) then Bumped(old(Counts()), width, PrecisionHash(d), c)
                          else old(Counts())
    {
      hide Valid, PrecisionHash, Bumped;
      if enabled {
        HashIsInjective(d, d);
        ghost var h, before := PrecisionHash(d), Counts();
        BumpedFromZero(before, width, h, c);
        var r := GetOpStats(d);
        if d == Desc(0, 0) {
          r.counters := r.counters[c := (r.counters[c] + 1) % WRAP];
        } else {
          Increment(PrecisionHash(d), c);
        }
      }
    }
  }
}
