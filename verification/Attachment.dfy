/** How radio units are attached to base stations: `init_RU` inverts the units' lists of base stations,
    and `init_eNB_afterRU` numbers the receive antennas of a base station's units consecutively. */
module Attachment {

  // ---------------------------------------------------------------- inverting the lists

  class Enb {
    /** The numbers of the attached units; its length is num_RU. */
    var ruList: seq<nat>
  }

  class Ru {
    /** The slots of eNB_list, of which the first numEnb are used. */
    var enbList: seq<Enb?>
    var numEnb: nat
  }

  /** The base stations of one unit. */
  datatype Listed = Listed(enbs: seq<Enb?>)

  /** The base stations a unit is attached to: a list that was never filled in stands for the first one. */
  ghost function Effective(ru: Ru, first: Enb): seq<Enb?>
    reads ru
  {
    if ru.numEnb == 0 || ru.enbList == [] then []
    else if ru.enbList[0] == null then [first]
    else if ru.numEnb <= |ru.enbList| then ru.enbList[..ru.numEnb]
    else []
  }

  /** What the attach loop demands of a unit: the used slots exist, and none but the first is empty. */
  ghost predicate Usable(ru: Ru)
    reads ru
  {
    && ru.numEnb <= |ru.enbList|
    && ru.enbList != []
    && (ru.enbList[0] != null ==> forall i :: 0 <= i < ru.numEnb ==> ru.enbList[i] != null)
  }

  function Repeat(x: nat, n: nat): seq<nat> {
    seq(n, _ => x)
  }

  lemma RepeatStep(x: nat, n: nat)
    ensures Repeat(x, n + 1) == Repeat(x, n) + [x]
  {
  }

  /** How often `e` is among the first `i` of the list. */
  ghost function Times(list: seq<Enb?>, i: nat, e: Enb): nat
    requires i <= |list|
  {
    if i == 0 then 0 else Times(list, i - 1, e) + if list[i - 1] == e then 1 else 0
  }

  /** The units among the first `k` whose lists hold `e`, in their order, as often as they hold it. */
  ghost function Inverse(lists: seq<Listed>, k: nat, e: Enb): seq<nat>
    requires k <= |lists|
  {
    if k == 0 then []
    else Inverse(lists, k - 1, e) + Repeat(k - 1, Times(lists[k - 1].enbs, |lists[k - 1].enbs|, e))
  }

  /** A list that was never filled in is set to the first base station. */
  method FillIn(ru: Ru, first: Enb)
    requires Usable(ru)
    modifies ru
    ensures Usable(ru) && Effective(ru, first) == old(Effective(ru, first))
    ensures Effective(ru, first) == if ru.enbList[0] == null then [] else ru.enbList[..ru.numEnb]
    ensures if old(ru.numEnb) > 0 && old(ru.enbList)[0] == null
      then ru.numEnb == 1 && ru.enbList == old(ru.enbList)[0 := first]
      else ru.numEnb == old(ru.numEnb) && ru.enbList == old(ru.enbList)
  {
    if ru.numEnb > 0 {
      if ru.enbList[0] == null {
        ru.enbList, ru.numEnb := ru.enbList[0 := first], 1;
      }
    }
  }

  /** The inner loop: unit `k` is attached to every base station of its list. */
  method AttachTo(list: seq<Enb?>, k: nat, ghost all: set<Enb>)
    requires Known(list, all)
    modifies all
    ensures forall e :: e in all ==> e.ruList == old(e.ruList) + Repeat(k, Times(list, |list|, e))
  {
    var i := 0;
    while i < |list|
      invariant 0 <= i <= |list|
      invariant forall e :: e in all ==> e.ruList == old(e.ruList) + Repeat(k, Times(list, i, e))
    {
      var e := list[i];
      assert e in list;
      RepeatStep(k, Times(list, i, e));
      e.ruList := e.ruList + [k];
      i := i + 1;
    }
  }

  method AttachOne(ru: Ru, k: nat, first: Enb, ghost all: set<Enb>, ghost list: seq<Enb?>)
    requires Usable(ru) && Known(list, all) && list == Effective(ru, first)
    modifies ru, all
    ensures Usable(ru) && Effective(ru, first) == list
    ensures forall e :: e in all ==> e.ruList == old(e.ruList) + Repeat(k, Times(list, |list|, e))
  {
    FillIn(ru, first);
    if ru.enbList[0] != null {
      AttachTo(ru.enbList[..ru.numEnb], k, all);
    }
  }

  /** The units are usable, and `lists` are their base stations, all of them in `all`. */
  ghost predicate Describes(lists: seq<Listed>, rus: seq<Ru>, first: Enb, all: set<Enb>)
    reads rus
  {
    && |lists| == |rus|
    && (forall k :: 0 <= k < |rus| ==> Usable(rus[k]) && Effective(rus[k], first) == lists[k].enbs)
    && (forall k :: 0 <= k < |rus| ==> Known(lists[k].enbs, all))
  }

  ghost predicate Known(list: seq<Enb?>, all: set<Enb>) {
    forall e :: e in list ==> e != null && e in all
  }

  /** Empties the lists of `enbs`. */
  method Reset(enbs: seq<Enb>)
    modifies enbs
    ensures forall e :: e in enbs ==> e.ruList == []
  {
    var i := 0;
    while i < |enbs|
      invariant 0 <= i <= |enbs|
      invariant forall j :: 0 <= j < i ==> enbs[j].ruList == []
    {
      enbs[i].ruList := [];
      i := i + 1;
    }
  }

  /** Every list is what it was, followed by the inverse of the first `k` units' lists. */
  ghost predicate Grown(was: map<Enb, seq<nat>>, lists: seq<Listed>, k: nat)
    requires k <= |lists|
    reads was.Keys
  {
    forall e {:trigger Inverse(lists, k, e)} :: e in was.Keys ==> e.ruList == was[e] + Inverse(lists, k, e)
  }

  lemma InverseStep(lists: seq<Listed>, k: nat, e: Enb, was: seq<nat>)
    requires k < |lists|
    ensures was + Inverse(lists, k, e) + Repeat(k, Times(lists[k].enbs, |lists[k].enbs|, e))
         == was + Inverse(lists, k + 1, e)
  {
  }

  /** One turn of the outer loop. */
  method AttachNth(rus: seq<Ru>, k: nat, first: Enb, ghost lists: seq<Listed>, ghost was: map<Enb, seq<nat>>)
    requires Describes(lists, rus, first, was.Keys) && k < |rus| && Grown(was, lists, k)
    modifies rus[k], was.Keys
    ensures Describes(lists, rus, first, was.Keys) && Grown(was, lists, k + 1)
  {
    AttachOne(rus[k], k, first, was.Keys, lists[k].enbs);
    forall e | e in was.Keys ensures e.ruList == was[e] + Inverse(lists, k + 1, e) {
      InverseStep(lists, k, e, was[e]);
    }
  }

  method AttachAll(rus: seq<Ru>, first: Enb, ghost lists: seq<Listed>, ghost was: map<Enb, seq<nat>>)
    requires Describes(lists, rus, first, was.Keys) && Grown(was, lists, 0)
    modifies rus, was.Keys
    ensures Describes(lists, rus, first, was.Keys) && Grown(was, lists, |lists|)
  {
    for k := 0 to |rus|
      invariant Describes(lists, rus, first, was.Keys) && Grown(was, lists, k)
    {
      AttachNth(rus, k, first, lists, was);
    }
  }

  /** The list of every base station is, after what it held before, the inverse of the units' lists. */
  method InitRu(rus: seq<Ru>, enbs: seq<Enb>, first: Enb, reset: bool,
                ghost lists: seq<Listed>, ghost all: set<Enb>)
    requires Describes(lists, rus, first, all)
    requires forall e :: e in enbs ==> e in all
    modifies rus, all
    ensures Describes(lists, rus, first, all)
    ensures forall e :: e in all ==>
      e.ruList == (if reset && e in enbs then [] else old(e.ruList)) + Inverse(lists, |lists|, e)
  {
    if reset {
      Reset(enbs);
    }
    AttachAll(rus, first, lists, map e | e in all :: e.ruList);
  }

  // What the inverse is, without naming how it is built: it is ordered, it names units only, and it holds
  // a unit as often as the unit's list holds the base station.

  function Copies(s: seq<nat>, r: nat): nat {
    multiset(s)[r]
  }

  predicate Ordered(r: seq<nat>, bound: nat) {
    && (forall i, j :: 0 <= i < j < |r| ==> r[i] <= r[j])
    && (forall i :: 0 <= i < |r| ==> r[i] < bound)
  }

  lemma {:induction false} InverseOrdered(lists: seq<Listed>, k: nat, e: Enb)
    requires k <= |lists|
    ensures Ordered(Inverse(lists, k, e), k)
  {
    if k > 0 {
      InverseOrdered(lists, k - 1, e);
    }
  }

  lemma {:induction false} InverseCounts(lists: seq<Listed>, k: nat, e: Enb, r: nat)
    requires r < k <= |lists|
    ensures Copies(Inverse(lists, k, e), r) == multiset(lists[r].enbs)[e]
  {
    var list := lists[k - 1].enbs;
    var n := Times(list, |list|, e);
    var p, q := Inverse(lists, k - 1, e), Repeat(k - 1, n);
    assert Copies(q, r) == if r == k - 1 then n else 0 by { RepeatCount(k - 1, n, r); }
    if r < k - 1 {
      InverseCounts(lists, k - 1, e, r);
    } else {
      assert Copies(p, r) == 0 by {
        InverseOrdered(lists, k - 1, e);
        Absent(p, r);
      }
      assert n == multiset(list)[e] by {
        TimesCount(list, |list|, e);
        assert list[..|list|] == list;
      }
    }
    CountConcat(p, q, r);
  }

  lemma CountConcat(a: seq<nat>, b: seq<nat>, r: nat)
    ensures Copies(a + b, r) == Copies(a, r) + Copies(b, r)
  {
  }

  lemma Absent(a: seq<nat>, bound: nat)
    requires Ordered(a, bound)
    ensures Copies(a, bound) == 0
  {
  }

  lemma {:induction false} RepeatCount(x: nat, n: nat, k: nat)
    ensures Copies(Repeat(x, n), k) == if k == x then n else 0
  {
    if n > 0 {
      RepeatCount(x, n - 1, k);
      RepeatStep(x, n - 1);
    }
  }

  lemma {:induction false} TimesCount(list: seq<Enb?>, i: nat, e: Enb)
    requires i <= |list|
    ensures Times(list, i, e) == multiset(list[..i])[e]
  {
    if i > 0 {
      TimesCount(list, i - 1, e);
      assert list[..i] == list[..i - 1] + [list[i - 1]];
    }
  }

  // ---------------------------------------------------------------- numbering the antennas

  /** The buffers of one antenna: PRACH, PRACH of the four coverage levels, and data.  The base station keeps
      one array of each, filled at the same index: here one array of antennas. */
  datatype Port = Port(prach: nat, prachBr0: nat, prachBr1: nat, prachBr2: nat, prachBr3: nat, data: nat)

  /** The antennas of one unit. */
  datatype Antennas = Antennas(ports: seq<Port>)

  /** The antennas of the first `r` units, whose buffers are `parts`. */
  function Offset(parts: seq<Antennas>, r: nat): nat
    requires r <= |parts|
  {
    if r == 0 then 0 else Offset(parts, r - 1) + |parts[r - 1].ports|
  }

  lemma {:induction false} OffsetMonotone(parts: seq<Antennas>, r: nat, s: nat)
    requires r <= s <= |parts|
    ensures Offset(parts, r) <= Offset(parts, s)
  {
    if r < s {
      OffsetMonotone(parts, r, s - 1);
    }
  }

  /** Every antenna number below the total belongs to a unit and an antenna of it. */
  lemma {:induction false} Locate(parts: seq<Antennas>, n: nat, aa: nat) returns (r: nat, i: nat)
    requires n <= |parts| && aa < Offset(parts, n)
    ensures r < n && i < |parts[r].ports| && aa == Offset(parts, r) + i
  {
    if aa >= Offset(parts, n - 1) {
      return n - 1, aa - Offset(parts, n - 1);
    }
    r, i := Locate(parts, n - 1, aa);
  }

  /** And to only one: the numbering is a bijection onto the numbers below the total, and keeps the order. */
  lemma NumberingInjective(parts: seq<Antennas>, r: nat, i: nat, s: nat, j: nat)
    requires r < |parts| && i < |parts[r].ports| && s < |parts| && j < |parts[s].ports|
    ensures Offset(parts, r) + i < Offset(parts, |parts|)
    ensures Offset(parts, r) + i == Offset(parts, s) + j <==> r == s && i == j
    ensures Offset(parts, r) + i < Offset(parts, s) + j <==> r < s || (r == s && i < j)
  {
    OffsetMonotone(parts, r + 1, |parts|);
    if r < s {
      OffsetMonotone(parts, r + 1, s);
    } else if s < r {
      OffsetMonotone(parts, s + 1, r);
    }
  }

  /** The counting loop. */
  method CountAntennas(parts: seq<Antennas>) returns (n: nat)
    ensures n == Offset(parts, |parts|)
  {
    n := 0;
    for k := 0 to |parts|
      invariant n == Offset(parts, k)
    {
      n := n + |parts[k].ports|;
    }
  }

  function Flat(parts: seq<Antennas>, r: nat): (f: seq<Port>)
    requires r <= |parts|
    ensures |f| == Offset(parts, r)
  {
    if r == 0 then [] else Flat(parts, r - 1) + parts[r - 1].ports
  }

  /** Antenna `i` of unit `r` stands at its number. */
  lemma {:induction false} FlatAt(parts: seq<Antennas>, n: nat, r: nat, i: nat)
    requires r < n <= |parts| && i < |parts[r].ports|
    ensures Offset(parts, r) + i < Offset(parts, n)
    ensures Flat(parts, n)[Offset(parts, r) + i] == parts[r].ports[i]
  {
    OffsetMonotone(parts, r + 1, n);
    if r < n - 1 {
      FlatAt(parts, n - 1, r, i);
    }
  }

  function Splice(a: seq<Port>, at: nat, part: seq<Port>): (r: seq<Port>)
    requires at + |part| <= |a|
    ensures |r| == |a|
  {
    a[..at] + part + a[at + |part|..]
  }

  lemma SpliceStep(a: seq<Port>, at: nat, part: seq<Port>, i: nat)
    requires at + |part| <= |a| && i < |part|
    ensures Splice(a, at, part[..i])[at + i := part[i]] == Splice(a, at, part[..i + 1])
  {
  }

  /** The slots from `aa0` on take a unit's antennas. */
  method MapUnit(unit: seq<Port>, aa0: nat, ports: array<Port>) returns (aa: nat)
    requires aa0 + |unit| <= ports.Length
    modifies ports
    ensures aa == aa0 + |unit| && ports[..] == Splice(old(ports[..]), aa0, unit)
  {
    aa := aa0;
    var i := 0;
    while i < |unit|
      invariant 0 <= i <= |unit| && aa == aa0 + i
      invariant ports[..] == Splice(old(ports[..]), aa0, unit[..i])
    {
      SpliceStep(old(ports[..]), aa0, unit, i);
      ghost var before := ports[..];
      ports[aa] := unit[i];
      assert ports[..] == before[aa := unit[i]];
      aa, i := aa + 1, i + 1;
    }
    assert unit[..|unit|] == unit;
  }

  /** The array after `k` units have been mapped into it. */
  function Mapped(was: seq<Port>, parts: seq<Antennas>, k: nat): (r: seq<Port>)
    requires k <= |parts| && Offset(parts, k) <= |was|
    ensures |r| == |was|
  {
    if k == 0 then was else Splice(Mapped(was, parts, k - 1), Offset(parts, k - 1), parts[k - 1].ports)
  }

  lemma {:induction false} MappedIsFlat(was: seq<Port>, parts: seq<Antennas>, k: nat)
    requires k <= |parts| && Offset(parts, k) <= |was|
    ensures Mapped(was, parts, k) == Flat(parts, k) + was[Offset(parts, k)..]
  {
    if k > 0 {
      MappedIsFlat(was, parts, k - 1);
      var a, m, n := Mapped(was, parts, k - 1), Offset(parts, k - 1), Offset(parts, k);
      assert a[..m] == Flat(parts, k - 1);
      assert a[n..] == was[n..];
    }
  }

  method MapAll(parts: seq<Antennas>, ports: array<Port>)
    requires Offset(parts, |parts|) <= ports.Length
    modifies ports
    ensures ports[..] == Mapped(old(ports[..]), parts, |parts|)
  {
    var aa, k := 0, 0;
    OffsetMonotone(parts, 0, |parts|);
    while k < |parts|
      invariant 0 <= k <= |parts| && aa == Offset(parts, k) <= ports.Length
      invariant ports[..] == Mapped(old(ports[..]), parts, k)
    {
      OffsetMonotone(parts, k + 1, |parts|);
      aa := MapUnit(parts[k].ports, aa, ports);
      k := k + 1;
    }
  }

  /** Counts and maps; the count is forced up to one when no antenna is attached. */
  method MapAntennas(parts: seq<Antennas>, ports: array<Port>) returns (antennas: nat)
    requires Offset(parts, |parts|) <= ports.Length
    modifies ports
    ensures antennas == if Offset(parts, |parts|) == 0 then 1 else Offset(parts, |parts|)
    ensures ports[..] == Flat(parts, |parts|) + old(ports[..])[Offset(parts, |parts|)..]
  {
    antennas := CountAntennas(parts);
    MappedIsFlat(ports[..], parts, |parts|);
    MapAll(parts, ports);
    if antennas < 1 {
      antennas := 1;
    }
  }
}
