/** The table of memory-mapped files (boa-0.94.13/src/mmap_cache.c): open addressing with linear
    probing, reference counts, and slots that become free again.
 */
module MmapCache {
  import opened Text

  const LIST_SIZE: nat := 256
  const USE_MAX: nat := 128

  /** `struct mmap_entry`. */
  datatype Entry = Entry(dev: int, ino: nat, len: nat, addr: int, useCount: nat)

  /** What `fstat` says of a file. */
  datatype Stat = Stat(dev: int, ino: nat, len: nat)

  /** The comparison that probing makes. */
  predicate Same(e: Entry, s: Stat) {
    e.dev == s.dev && e.ino == s.ino && e.len == s.len
  }

  function Hash(s: Stat): (i: nat)
    ensures i < LIST_SIZE
  {
    s.ino % 256
  }

  function Succ(i: nat): (j: nat)
    requires i < LIST_SIZE
    ensures j < LIST_SIZE
  {
    if i == LIST_SIZE - 1 then 0 else i + 1
  }

  /** How far `i` is behind `start` in probing order. */
  function Distance(start: nat, i: nat): (d: nat)
    requires start < LIST_SIZE && i < LIST_SIZE
    ensures d < LIST_SIZE && (d == 0 <==> i == start)
  {
    if i >= start then i - start else i + LIST_SIZE - start
  }

  function InUse(t: seq<Entry>): (u: set<nat>)
    ensures forall i: nat :: i in u <==> i < |t| && t[i].useCount > 0
  {
    set i: nat | i < |t| && t[i].useCount > 0
  }

  /** `i` is the first slot in probing order that is free or holds the file. */
  ghost predicate Lands(t: seq<Entry>, s: Stat, i: nat) {
    && |t| == LIST_SIZE && i < LIST_SIZE && (t[i].useCount == 0 || Stat(t[i].dev, t[i].ino, t[i].len) == s)
    && forall j: nat | j < LIST_SIZE && Distance(Hash(s), j) < Distance(Hash(s), i) ::
         t[j].useCount > 0 && Stat(t[j].dev, t[j].ino, t[j].len) != s
  }

  /** Probing all of the table means that all of it is in use. */
  lemma AllProbed(t: seq<Entry>)
    requires |t| == LIST_SIZE && forall j | 0 <= j < LIST_SIZE :: t[j].useCount > 0
    ensures |InUse(t)| == LIST_SIZE
  {
    assert InUse(t) == Below(LIST_SIZE);
  }

  function Below(n: nat): (s: set<nat>)
    ensures |s| == n && forall i: nat :: i in s <==> i < n
  {
    if n == 0 then {} else Below(n - 1) + {n - 1}
  }

  /** Taking a free slot into use, and freeing one. */
  lemma UseChanges(t: seq<Entry>, u: seq<Entry>, i: nat)
    requires i < |t| == |u| && t[i].useCount == 0 < u[i].useCount
    requires forall j | 0 <= j < |t| && j != i :: t[j] == u[j]
    ensures |InUse(u)| == |InUse(t)| + 1
  {
    assert InUse(u) == InUse(t) + {i};
  }

  /** A mapping that the kernel holds, and the slot it was made for. */
  datatype Mapping = Mapping(len: nat, slot: nat)

  /** A slot in use has its mapping, of its length. */
  ghost predicate Backed(t: seq<Entry>, mapped: map<int, Mapping>) {
    forall i: nat | i < |t| && t[i].useCount > 0 ::
      t[i].addr in mapped && mapped[t[i].addr] == Mapping(t[i].len, i)
  }

  /** A mapping has its slot. */
  ghost predicate Owned(t: seq<Entry>, mapped: map<int, Mapping>) {
    forall a | a in mapped ::
      var i := mapped[a].slot;
      i < |t| && t[i].useCount > 0 && t[i].addr == a
  }

  /** As many handles are out as the slots count. */
  ghost predicate Counted(t: seq<Entry>, handles: multiset<nat>) {
    forall i: nat :: handles[i] == if i < |t| then t[i].useCount else 0
  }

  /** The slots in use, the handles given out and the kernel's mappings belong together. */
  ghost predicate Consistent(t: seq<Entry>, used: nat, handles: multiset<nat>, mapped: map<int, Mapping>) {
    && |t| == LIST_SIZE && used == |InUse(t)| <= USE_MAX + 1
    && Counted(t, handles) && Backed(t, mapped) && Owned(t, mapped)
  }

  /** Something is mapped exactly as long as some handle is out. */
  lemma AllReleased(t: seq<Entry>, used: nat, handles: multiset<nat>, mapped: map<int, Mapping>)
    requires Consistent(t, used, handles, mapped)
    ensures handles == multiset{} <==> mapped == map[]
    ensures handles == multiset{} <==> used == 0
  {
    assert forall i: nat | i in InUse(t) :: t[i].addr in mapped;
    if mapped == map[] {
      assert InUse(t) == {};
      assert forall i: nat :: handles[i] == 0;
    } else {
      assert |mapped.Keys| != 0 && mapped.Keys != {};
      var a :| a in mapped.Keys;
      assert handles[mapped[a].slot] > 0;
      assert mapped[a].slot in InUse(t);
    }
  }

  /** A slot's count goes up or down and stays positive. */
  lemma Recounted(t: seq<Entry>, used: nat, h: multiset<nat>, mapped: map<int, Mapping>, i: nat, n: nat)
    requires Consistent(t, used, h, mapped) && i < LIST_SIZE && t[i].useCount > 0 && n > 0
    ensures Consistent(t[i := t[i].(useCount := n)], used, h[i := n], mapped)
  {
    var u := t[i := t[i].(useCount := n)];
    assert InUse(u) == InUse(t);
  }

  /** A free slot gets a file that has just been mapped. */
  lemma NewlyMapped(t: seq<Entry>, used: nat, h: multiset<nat>, mapped: map<int, Mapping>, i: nat, e: Entry)
    requires Consistent(t, used, h, mapped) && used <= USE_MAX
    requires i < LIST_SIZE && t[i].useCount == 0 && e.useCount == 1 && e.addr !in mapped
    ensures Consistent(t[i := e], used + 1, h[i := 1], mapped[e.addr := Mapping(e.len, i)])
  {
    var u := t[i := e];
    UseChanges(t, u, i);
    hide InUse;
  }

  lemma OneMoreHandle(t: seq<Entry>, used: nat, h: multiset<nat>, mapped: map<int, Mapping>, i: nat)
    requires Consistent(t, used, h, mapped) && i < |t|
    ensures |t| == LIST_SIZE && h + multiset{i} == h[i := t[i].useCount + 1]
  {}

  lemma OneHandleLess(t: seq<Entry>, used: nat, h: multiset<nat>, mapped: map<int, Mapping>, i: nat)
    requires Consistent(t, used, h, mapped) && i < LIST_SIZE
    ensures |t| == LIST_SIZE && (t[i].useCount > 0 ==> h - multiset{i} == h[i := t[i].useCount - 1])
  {}

  /** The last handle of a slot is given back. */
  lemma NowUnmapped(t: seq<Entry>, used: nat, h: multiset<nat>, mapped: map<int, Mapping>, i: nat)
    requires Consistent(t, used, h, mapped) && i < LIST_SIZE && t[i].useCount == 1
    ensures used > 0 && Consistent(t[i := t[i].(useCount := 0)], used - 1, h[i := 0], mapped - {t[i].addr})
  {
    var u := t[i := t[i].(useCount := 0)];
    UseChanges(u, t, i);
    hide InUse;
  }

  class Cache {
    const slots: array<Entry>
    var entriesUsed: nat
    ghost var handles: multiset<nat>     // one for every caller that holds a slot
    ghost var mapped: map<int, Mapping>  // the kernel's mappings, by address

    ghost predicate Valid()
      reads this, slots
    {
      Consistent(slots[..], entriesUsed, handles, mapped)
    }

    constructor ()
      ensures Valid() && fresh(slots) && handles == multiset{} && mapped == map[]
    {
      slots := new Entry[LIST_SIZE](_ => Entry(0, 0, 0, 0, 0));
      entriesUsed, handles, mapped := 0, multiset{}, map[];
      new;
      assert InUse(slots[..]) == {};
    }

    /** The probing loop of `find_mmap`; it always meets a slot, so the `return NULL` after a
        full turn is never reached. */
    method Probe(s: Stat) returns (i: nat)
      requires Valid()
      ensures Lands(slots[..], s, i)
    {
      var start := Hash(s);
      i := start;
      while slots[i].useCount != 0 && !Same(slots[i], s)
        invariant i < LIST_SIZE == slots.Length
        invariant forall j: nat | j < LIST_SIZE && Distance(start, j) < Distance(start, i) ::
                    slots[j].useCount > 0 && !Same(slots[j], s)
        decreases LIST_SIZE - Distance(start, i)
      {
        if Succ(i) == start {
          AllProbed(slots[..]);
          assert false;
        }
        i := Succ(i);
      }
    }

    /** `find_mmap`; `m` is what `mmap` would return, None if it would fail. */
    method Find(s: Stat, m: Option<int>) returns (e: Option<nat>, ghost at: nat)
      requires Valid()
      requires m.Some? ==> m.value !in mapped
      modifies this, slots
      ensures Valid()
      ensures Lands(old(slots[..]), s, at)
      ensures e == if old(slots[at].useCount == 0 && (entriesUsed > USE_MAX || m.None?)) then None else Some(at)
      ensures e.None? ==> slots[..] == old(slots[..]) && handles == old(handles) && mapped == old(mapped)
      ensures e.Some? ==>
        var i := e.value;
        && Stat(slots[i].dev, slots[i].ino, slots[i].len) == s && handles == old(handles) + multiset{i}
        && (forall j | 0 <= j < LIST_SIZE && j != i :: slots[j] == old(slots[j]))
        && mapped == (if old(slots[i].useCount) == 0 then old(mapped)[m.value := Mapping(s.len, i)] else old(mapped))
        && (old(slots[i].useCount) > 0 ==> slots[i].addr == old(slots[i].addr))
    {
      hide Consistent, Hash, Distance;
      var i := Probe(s);
      ghost var t, h := slots[..], handles;
      OneMoreHandle(t, entriesUsed, h, mapped, i);
      if slots[i].useCount != 0 {
        Recounted(t, entriesUsed, h, mapped, i, t[i].useCount + 1);
        slots[i] := slots[i].(useCount := slots[i].useCount + 1);
        handles := handles + multiset{i};
        assert slots[..] == t[i := slots[i]];
        return Some(i), i;
      }
      if entriesUsed > USE_MAX || m.None? {
        return None, i;
      }
      NewlyMapped(t, entriesUsed, h, mapped, i, Entry(s.dev, s.ino, s.len, m.value, 1));
      mapped := mapped[m.value := Mapping(s.len, i)];
      entriesUsed := entriesUsed + 1;
      slots[i] := Entry(s.dev, s.ino, s.len, m.value, 1);
      handles := handles + multiset{i};
      assert slots[..] == t[i := slots[i]];
      e, at := Some(i), i;
    }

    /** `release_mmap`; None is a null pointer. */
    method Release(e: Option<nat>)
      requires Valid() && (e.Some? ==> e.value < LIST_SIZE)
      modifies this, slots
      ensures Valid()
      ensures e.None? || old(slots[e.value].useCount) == 0 ==>
        slots[..] == old(slots[..]) && handles == old(handles) && mapped == old(mapped)
      ensures e.Some? && old(slots[e.value].useCount) > 0 ==>
        && handles == old(handles) - multiset{e.value}
        && (forall j | 0 <= j < LIST_SIZE && j != e.value :: slots[j] == old(slots[j]))
        && slots[e.value] == old(slots[e.value]).(useCount := old(slots[e.value].useCount) - 1)
        && mapped == old(mapped) - (if slots[e.value].useCount == 0 then {slots[e.value].addr} else {})
    {
      hide Consistent;
      if e.None? {
        return;
      }
      var i := e.value;
      ghost var t, h := slots[..], handles;
      OneHandleLess(t, entriesUsed, h, mapped, i);
      if slots[i].useCount == 0 {
        return;
      }
      if t[i].useCount == 1 {
        NowUnmapped(t, entriesUsed, h, mapped, i);
      } else {
        Recounted(t, entriesUsed, h, mapped, i, t[i].useCount - 1);
      }
      slots[i] := slots[i].(useCount := slots[i].useCount - 1);
      handles := handles - multiset{i};
      assert slots[..] == t[i := slots[i]];
      if slots[i].useCount == 0 {
        mapped := mapped - {slots[i].addr};
        entriesUsed := entriesUsed - 1;
      }
    }
  }
}
