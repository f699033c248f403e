/** The hash tables of the ANY DEFINED BY machinery: a trie of tables indexed by the octets of the hash. */
module Hashes {
  import opened Octets

  /** `n = *str++ + 65587 * n` in 32 bits, where a `char` is signed. */
  function HashStep(n: int, c: int): (r: int)
    ensures 0 <= r < TWO_32
  {
    (c + 65587 * n) % TWO_32
  }

  /** The polynomial hash of the characters in order. */
  function HashOf(str: seq<int>): int
  {
    if str == [] then 0 else HashStep(HashOf(str[..|str| - 1]), str[|str| - 1])
  }

  function Power(base: nat, k: nat): nat
  {
    if k == 0 then 1 else base * Power(base, k - 1)
  }

  /** The characters as the digits of a number to the base 65587, the first one counting most. */
  function Polynomial(str: seq<int>): int
  {
    if str == [] then 0 else str[0] * Power(65587, |str| - 1) + Polynomial(str[1..])
  }

  lemma {:induction false} PolynomialSnoc(str: seq<int>, c: int)
    ensures Polynomial(str + [c]) == 65587 * Polynomial(str) + c
  {
    if str == [] {
      assert str + [c] == [c] && [c][1..] == [];
    } else {
      assert (str + [c])[1..] == str[1..] + [c];
      PolynomialSnoc(str[1..], c);
      var p := Power(65587, |str| - 1);
      assert Power(65587, |str|) == 65587 * p;
      assert str[0] * (65587 * p) == 65587 * (str[0] * p);
    }
  }

  /** The hash is that number modulo 2^32. */
  lemma {:induction false} HashIsPolynomial(str: seq<int>)
    ensures HashOf(str) == Polynomial(str) % 0x1_0000_0000
  {
    if str != [] {
      var init, c := str[..|str| - 1], str[|str| - 1];
      assert str == init + [c];
      HashIsPolynomial(init);
      PolynomialSnoc(init, c);
      ModStep(Polynomial(init), c);
    }
  }

  lemma ModStep(n: int, c: int)
    ensures (c + 65587 * (n % 0x1_0000_0000)) % 0x1_0000_0000 == (65587 * n + c) % 0x1_0000_0000
  {
    var q, r := n / 0x1_0000_0000, n % 0x1_0000_0000;
    assert 65587 * n + c == (c + 65587 * r) + 0x1_0000_0000 * (65587 * q);
  }

  /** The unrolled loop, entered in its middle, takes every character exactly once. */
  method MakeHash(str: seq<int>) returns (n: int)
    ensures n == HashOf(str)
    ensures n == Polynomial(str) % 0x1_0000_0000
  {
    HashIsPolynomial(str);
    n := 0;
    var at := 0;
    if |str| > 0 {
      var rounds := (|str| + 8 - 1) / 8;
      var entry := if |str| % 8 == 0 then 8 else |str| % 8;
      while true
        invariant rounds > 0 && 0 < entry <= 8
        invariant 0 <= at && at + entry + 8 * (rounds - 1) == |str|
        invariant n == HashOf(str[..at])
        decreases rounds
      {
        ghost var from := at;
        while entry > 0
          invariant 0 <= entry && at <= |str| && at + entry + 8 * (rounds - 1) == |str|
          invariant n == HashOf(str[..at])
          decreases entry
        {
          assert str[..at + 1][..at] == str[..at];
          n := HashStep(n, str[at]);
          at := at + 1;
          entry := entry - 1;
        }
        rounds := rounds - 1;
        if rounds == 0 {
          break;
        }
        entry := 8;
      }
      assert str[..at] == str;
    }
  }

  /** A hash of `level` octets, and what is left of it below its slot. */
  lemma NoLevel(level: nat, h: int)
    requires 0 <= h < Pow256(level)
    ensures level == 0 ==> h == 0
    ensures level > 0 ==> 0 <= h / 256 < Pow256(level - 1) && Pow256(level) == 256 * Pow256(level - 1)
  {
  }

  class HashSlot<V> {
    var leaf: bool
    var hash: int
    var value: V
    var table: Table?<V>

    constructor (hash: int, value: V)
      ensures leaf && this.hash == hash && this.value == value && table == null
    {
      this.leaf, this.hash, this.value, this.table := true, hash, value, null;
    }
  }

  /** The objects of a slot in use: the slot itself and all of its table's. */
  ghost function Part<V>(s: HashSlot?<V>): set<object>
    reads s, if s != null then {s.table} else {}
  {
    if s == null then {} else {s} + if s.table != null then {s.table} + s.table.repr else {}
  }

  /** A slot in use is a leaf, or leads to a table that has an entry for the hash the slot was made for. */
  ghost predicate SlotValid<V>(s: HashSlot?<V>, i: nat, level: nat)
    reads s, if s != null then {s.table} else {}, Part(s)
    decreases level, 0
  {
    s != null ==>
      && 0 <= s.hash < Pow256(level) && s.hash % 256 == i
      && s.leaf == (s.table == null)
      && (!s.leaf ==>
            && s !in s.table.repr && level > 1 && s.table.Valid(level - 1)
            && s.table.Lookup(level - 1, s.hash / 256).Some?)
  }

  /** The value that a slot leads to for a hash. */
  ghost function SlotLookup<V>(s: HashSlot?<V>, i: nat, level: nat, h: nat): Option<V>
    requires SlotValid(s, i, level)
    reads s, if s != null then {s.table} else {}, Part(s)
    decreases level, 1
  {
    if s == null then None
    else if s.leaf then if s.hash == h then Some(s.value) else None
    else s.table.Lookup(level - 1, h / 256)
  }

  /** Two hashes of the same slot differ in what is left of them. */
  lemma Rest(h: nat, k: nat)
    requires h % 256 == k % 256
    ensures h == k <==> h / 256 == k / 256
  {
  }

  /** Makes a leaf into a table of two entries, one level down. */
  method SplitAndInsert<V>(entry: HashSlot<V>, ghost i: nat, ghost level: nat, element: V, h: nat)
    requires entry.leaf && SlotValid(entry, i, level) && h != entry.hash && h % 256 == i && h < Pow256(level)
    modifies entry
    ensures SlotValid(entry, i, level) && fresh(Part(entry) - {entry})
    ensures forall k: nat :: k < Pow256(level) && k % 256 == i ==>
      SlotLookup(entry, i, level, k) ==
      if k == old(entry.hash) then Some(old(entry.value)) else if k == h then Some(element) else None
    decreases level, 0, 0
  {
    hide Table.Valid, Table.Lookup;
    NoLevel(level, h);
    NoLevel(level, entry.hash);
    Rest(h, entry.hash);
    var table := new Table<V>();
    table.Empty(level - 1);
    entry.table := table;
    table.Insert(level - 1, entry.value, entry.hash / 256);
    table.Insert(level - 1, element, h / 256);
    entry.leaf := false;
    forall k: nat | k < Pow256(level) && k % 256 == i
      ensures SlotLookup(entry, i, level, k) ==
              if k == old(entry.hash) then Some(old(entry.value)) else if k == h then Some(element) else None
    {
      NoLevel(level, k);
      Rest(h, k);
      Rest(entry.hash, k);
    }
  }

  class Table<V> {
    var slots: seq<HashSlot?<V>>
    ghost var repr: set<object>

    constructor ()
      ensures slots == seq(256, _ => null) && repr == {this}
    {
      slots := seq(256, _ => null);
      repr := {this};
    }

    ghost predicate Owned()
      reads this, repr
    {
      && |slots| == 256
      && (forall i {:trigger slots[i]} :: 0 <= i < 256 && slots[i] != null ==>
            slots[i] in repr && (slots[i].table != null ==> slots[i].table in repr))
    }

    ghost predicate InPart(o: object)
      requires Owned()
      reads this, repr
    {
      exists i :: 0 <= i < 256 && o in Part(slots[i])
    }

    /** Nothing is owned but the table itself and what its slots lead to. */
    ghost predicate Tight()
      requires Owned()
      reads this, repr
    {
      forall o {:trigger InPart(o)} :: o in repr && o != this ==> InPart(o)
    }

    /** The table and all below it form a tree of at most `level` levels. */
    ghost predicate Valid(level: nat)
      reads this, repr
      decreases level, 1
    {
      && this in repr && Owned()
      && (forall i {:trigger Part(slots[i])} :: 0 <= i < 256 ==> Part(slots[i]) <= repr - {this})
      && (forall i {:trigger SlotValid(slots[i], i, level)} :: 0 <= i < 256 ==> SlotValid(slots[i], i, level))
      && (forall i, j {:trigger Part(slots[i]), Part(slots[j])} :: 0 <= i < j < 256 ==>
            Part(slots[i]) !! Part(slots[j]))
      && Tight()
    }

    /** The table as a map from hashes of `level` octets to values. */
    ghost function View(level: nat): map<int, V>
      requires Valid(level)
      reads this, repr
    {
      map h: int | 0 <= h < Pow256(level) && Lookup(level, h).Some? :: Lookup(level, h).value
    }

    /** The value stored for a hash. */
    ghost function Lookup(level: nat, h: nat): Option<V>
      requires Valid(level)
      reads this, repr
      decreases level, 2
    {
      SlotLookup(slots[h % 256], h % 256, level, h)
    }

    /** The value is stored through the pointer only when the hash is found. */
    method CheckForAndReturnValue(ghost level: nat, hash: int) returns (value: Option<V>)
      requires Valid(level) && 0 <= hash < Pow256(level)
      ensures value == Lookup(level, hash)
      decreases level
    {
      NoLevel(level, hash);
      var entry := slots[hash % 256];
      assert SlotValid(entry, hash % 256, level);
      if entry == null {
        return None;
      }
      if entry.leaf {
        if entry.hash == hash {
          return Some(entry.value);
        }
        return None;
      }
      value := entry.table.CheckForAndReturnValue(level - 1, hash / 256);
    }

    lemma Empty(level: nat)
      requires slots == seq(256, _ => null) && repr == {this}
      ensures Valid(level) && forall k: nat :: Lookup(level, k) == None
    {
    }

    /** The slots of the table, the `i`-th and all others. */
    lemma Others(level: nat, i: nat)
      requires Valid(level) && i < 256
      ensures SlotValid(slots[i], i, level) && Part(slots[i]) <= repr - {this}
      ensures forall j :: 0 <= j < 256 && j != i ==>
        SlotValid(slots[j], j, level) && Part(slots[j]) <= repr - {this} && Part(slots[i]) !! Part(slots[j])
    {
      hide SlotValid;
      forall j | 0 <= j < 256 && j != i
        ensures SlotValid(slots[j], j, level) && Part(slots[j]) <= repr - {this} && Part(slots[i]) !! Part(slots[j])
      {
        assert Part(slots[i]) <= repr;
      }
    }

    /** Enters the element unless its hash is there already. */
    method Insert(ghost level: nat, element: V, h: nat)
      requires Valid(level) && h < Pow256(level) && level > 0
      modifies repr
      ensures Valid(level) && old(repr) <= repr && fresh(repr - old(repr))
      ensures forall k: nat :: k < Pow256(level) ==>
        Lookup(level, k) == if k == h && old(Lookup(level, h)) == None then Some(element) else old(Lookup(level, k))
      ensures View(level) == if h in old(View(level)) then old(View(level)) else old(View(level))[h := element]
      decreases level, 1
    {
      hide SlotValid, SlotLookup, Part;
      var i := h % 256;
      var entry := slots[i];
      assert SlotValid(slots[i], i, level);
      if entry == null {
        AddSlot(level, element, h);
      } else if h == entry.hash {
        Stale(entry, i, level);
      } else {
        InsertInUse(level, element, h);
      }
    }

    /** The slot of the hash is not in use yet. */
    method AddSlot(ghost level: nat, element: V, h: nat)
      requires Valid(level) && h < Pow256(level) && slots[h % 256] == null
      modifies this
      ensures Valid(level) && old(repr) <= repr && fresh(repr - old(repr))
      ensures forall k: nat :: k < Pow256(level) ==>
        Lookup(level, k) == if k == h then Some(element) else old(Lookup(level, k))
      ensures old(Lookup(level, h)) == None
    {
      var i := h % 256;
      Others(level, i);
      NoSlot<V>(i, level);
      hide SlotValid, SlotLookup;
      var entry := new HashSlot(h, element);
      slots := slots[i := entry];
      repr := repr + {entry};
      NewSlot(entry, i, level);
      forall j | 0 <= j < 256 && j != i
        ensures Part(slots[j]) == old(Part(slots[j])) && SlotValid(slots[j], j, level)
        ensures forall k: nat :: SlotLookup(slots[j], j, level, k) == old(SlotLookup(slots[j], j, level, k))
      {
      }
      forall j, k | 0 <= j < k < 256
        ensures Part(slots[j]) !! Part(slots[k])
      {
        if j != i && k != i {
          assert old(Part(slots[j]) !! Part(slots[k]));
        }
      }
      hide Part;
      forall o | o in repr && o != this
        ensures InPart(o)
      {
        if o == entry {
          assert entry in Part(slots[i]);
        } else {
          assert old(InPart(o));
          var j :| 0 <= j < 256 && old(o in Part(slots[j]));
          assert o in Part(slots[j]);
        }
      }
    }

    /** The slot of the hash is in use for another hash. */
    method InsertInUse(ghost level: nat, element: V, h: nat)
      requires Valid(level) && h < Pow256(level)
      requires slots[h % 256] != null && slots[h % 256].hash != h
      modifies repr
      ensures Valid(level) && old(repr) <= repr && fresh(repr - old(repr))
      ensures forall k: nat :: k < Pow256(level) ==>
        Lookup(level, k) == if k == h && old(Lookup(level, h)) == None then Some(element) else old(Lookup(level, k))
      decreases level, 0, 2
    {
      var i := h % 256;
      var entry := slots[i];
      Others(level, i);
      hide SlotValid, SlotLookup;
      InsertBelow(entry, i, level, element, h);
      repr := repr + Part(entry);
      forall j | 0 <= j < 256 && j != i
        ensures Part(slots[j]) == old(Part(slots[j])) && SlotValid(slots[j], j, level)
        ensures forall k: nat :: SlotLookup(slots[j], j, level, k) == old(SlotLookup(slots[j], j, level, k))
      {
      }
      forall j, k | 0 <= j < k < 256
        ensures Part(slots[j]) !! Part(slots[k])
      {
        if j != i && k != i {
          assert old(Part(slots[j]) !! Part(slots[k]));
        }
      }
      assert Part(slots[i]) <= repr - {this};
      forall o | o in repr && o != this
        ensures InPart(o)
      {
        if o in old(repr) {
          assert old(InPart(o));
        }
      }
    }

    /** What the slots own, one by one and together. */
    lemma AllParts(level: nat) returns (parts: seq<set<object>>, below: seq<set<object>>)
      requires Valid(level)
      ensures |slots| == 256 && |parts| == 256 && |below| == 256 + 1 && below[0] == {}
      ensures forall j :: 0 <= j < 256 ==> parts[j] == Part(slots[j]) && below[j + 1] == below[j] + parts[j]
      ensures forall j, k :: 0 <= j <= k < 256 ==> below[j] !! parts[k]
      ensures forall j, k :: 0 <= j < k < 256 ==> parts[j] !! parts[k]
      ensures this !in below[256] && below[256] + {this} == repr
      ensures forall j :: 0 <= j < 256 ==> parts[j] <= repr - {this}
    {
      hide SlotValid;
      parts, below := [], [{}];
      for i := 0 to 256
        invariant |parts| == i && |below| == i + 1 && below[0] == {}
        invariant forall j :: 0 <= j < i ==> parts[j] == Part(slots[j]) && below[j + 1] == below[j] + parts[j]
        invariant forall j, k :: 0 <= j <= i && j <= k < 256 ==> below[j] !! Part(slots[k])
        invariant forall j :: 0 <= j < i ==> parts[j] <= below[i]
        invariant below[i] <= repr - {this}
      {
        parts, below := parts + [Part(slots[i])], below + [below[i] + Part(slots[i])];
      }
      forall o | o in repr && o != this
        ensures o in below[256]
      {
        assert InPart(o);
        var j :| 0 <= j < 256 && o in Part(slots[j]);
        assert o in parts[j];
      }
    }

    /** The map is made up of the maps of the slots. */
    lemma ViewOfSlots(level: nat)
      requires Valid(level)
      ensures forall j :: 0 <= j < 256 ==>
        SlotValid(slots[j], j, level) && IsPart(SlotView(slots[j], j, level), View(level), j)
    {
      forall j | 0 <= j < 256
        ensures SlotValid(slots[j], j, level) && IsPart(SlotView(slots[j], j, level), View(level), j)
      {
        hide SlotValid, SlotLookup;
        assert SlotValid(slots[j], j, level);
      }
    }

    /** Frees the table with all slots, tables and values below it. */
    method FreeHashTable(ghost level: nat)
      returns (freed: seq<object>, values: seq<V>, ghost hashes: seq<int>)
      requires Valid(level)
      modifies repr
      ensures NoDup(freed) && Elems(freed) == old(repr)
      ensures Frees(old(View(level)), hashes, values)
      decreases level, 1
    {
      hide SlotValid, SlotLookup, SlotView, Frees, FreesBelow, IsPart, NoDup, Elems, Table.Valid, Table.View;
      ghost var view := View(level);
      ghost var parts, below := AllParts(level);
      ViewOfSlots(level);
      freed, values, hashes := [], [], [];
      FreesStart(view);
      for i := 0 to 256
        invariant |slots| == 256
        invariant NoDup(freed) && Elems(freed) == below[i]
        invariant FreesBelow(view, i, hashes, values)
        invariant forall j :: i <= j < 256 ==>
          && slots[j] == old(slots[j]) && SlotValid(slots[j], j, level) && Part(slots[j]) == parts[j]
          && IsPart(SlotView(slots[j], j, level), view, j)
      {
        var pSlot := slots[i];
        ghost var slotView := SlotView(slots[i], i, level);
        NothingFreed(slots[i], view, i, level, hashes, values);
        if pSlot != null {
          var more, moreValues;
          ghost var moreHashes;
          more, moreValues, moreHashes := FreeSlot(pSlot, i, level);
          FreesNext(view, slotView, i, hashes, values, moreHashes, moreValues);
          JoinElems(freed, more);
          freed, values, hashes := freed + more, values + moreValues, hashes + moreHashes;
          slots := slots[i := null];
        }
      }
      FreesAll(view, hashes, values);
      Single<object>(this);
      JoinElems(freed, [this]);
      freed := freed + [this];
    }
  }

  lemma NoSlot<V>(i: nat, level: nat)
    ensures SlotValid<V>(null, i, level) && forall k: nat :: SlotLookup<V>(null, i, level, k) == None
  {
  }

  lemma NewSlot<V>(s: HashSlot<V>, i: nat, level: nat)
    requires s.leaf && s.table == null && 0 <= s.hash < Pow256(level) && s.hash % 256 == i
    ensures SlotValid(s, i, level) && Part(s) == {s}
    ensures forall k: nat :: SlotLookup(s, i, level, k) == if k == s.hash then Some(s.value) else None
  {
  }

  /** The hash a slot was made for is there, even after the slot became a table. */
  lemma Stale<V>(s: HashSlot<V>, i: nat, level: nat)
    requires SlotValid(s, i, level)
    ensures s.hash >= 0 && SlotLookup(s, i, level, s.hash).Some?
  {
  }

  /** A slot in use whose hash is another one. */
  method InsertBelow<V>(entry: HashSlot<V>, ghost i: nat, ghost level: nat, element: V, h: nat)
    requires SlotValid(entry, i, level) && h != entry.hash && h % 256 == i && h < Pow256(level)
    modifies Part(entry)
    ensures SlotValid(entry, i, level) && old(Part(entry)) <= Part(entry) && fresh(Part(entry) - old(Part(entry)))
    ensures forall k: nat :: k < Pow256(level) && k % 256 == i ==>
      SlotLookup(entry, i, level, k) ==
      if k == h && old(SlotLookup(entry, i, level, h)) == None then Some(element)
      else old(SlotLookup(entry, i, level, k))
    decreases level, 0, 1
  {
    hide Table.Valid, Table.Lookup;
    NoLevel(level, h);
    if entry.leaf {
      SplitAndInsert(entry, i, level, element, h);
    } else {
      entry.table.Insert(level - 1, element, h / 256);
      forall k: nat | k < Pow256(level) && k % 256 == i
        ensures SlotLookup(entry, i, level, k) ==
                if k == h && old(SlotLookup(entry, i, level, h)) == None then Some(element)
                else old(SlotLookup(entry, i, level, k))
      {
        NoLevel(level, k);
        Rest(h, k);
      }
    }
  }

  /** The values of the map, each exactly once, and the hashes they are stored under. */
  ghost predicate Frees<V>(view: map<int, V>, hashes: seq<int>, values: seq<V>)
  {
    NoDup(hashes) && Elems(hashes) == view.Keys && |values| == |hashes| && Matches(view, hashes, values)
  }

  ghost predicate Matches<V>(view: map<int, V>, hashes: seq<int>, values: seq<V>)
    requires |values| == |hashes|
  {
    forall k :: 0 <= k < |hashes| && hashes[k] in view ==> values[k] == view[hashes[k]]
  }

  /** What a slot leads to, by hash. */
  ghost function SlotView<V>(s: HashSlot?<V>, i: nat, level: nat): map<int, V>
    requires SlotValid(s, i, level)
    reads s, if s != null then {s.table} else {}, Part(s)
  {
    map h: int | 0 <= h < Pow256(level) && h % 256 == i && SlotLookup(s, i, level, h).Some?
      :: SlotLookup(s, i, level, h).value
  }

  lemma LeafView<V>(s: HashSlot<V>, i: nat, level: nat)
    requires SlotValid(s, i, level) && s.table == null
    ensures SlotView(s, i, level) == map[s.hash := s.value]
  {
  }

  /** The hashes below a table's slot. */
  function Shifted(hashes: seq<int>, i: nat): seq<int>
  {
    seq(|hashes|, k requires 0 <= k < |hashes| => hashes[k] * 256 + i)
  }

  /** `sub` is the part of `view` for the hashes of one slot. */
  ghost predicate IsPart<V>(sub: map<int, V>, view: map<int, V>, i: nat)
  {
    && (forall h :: h in sub <==> h in view && h % 256 == i)
    && forall h :: h in sub ==> sub[h] == view[h]
  }

  /** The same for the hashes of the first slots. */
  ghost predicate FreesBelow<V>(view: map<int, V>, i: nat, hashes: seq<int>, values: seq<V>)
  {
    && NoDup(hashes) && |values| == |hashes|
    && (forall h :: h in Elems(hashes) <==> h in view && h % 256 < i)
    && Matches(view, hashes, values)
  }

  lemma FreesStart<V>(view: map<int, V>)
    ensures FreesBelow(view, 0, [], []) && NoDup<object>([]) && Elems<object>([]) == {}
  {
  }

  lemma FreesAll<V>(view: map<int, V>, hashes: seq<int>, values: seq<V>)
    requires FreesBelow(view, 256, hashes, values)
    ensures Frees(view, hashes, values)
  {
    hide NoDup, Elems, Matches;
    forall h
      ensures h in Elems(hashes) <==> h in view.Keys
    {
      assert h % 256 < 256;
    }
  }

  /** A slot that is not in use holds no value. */
  lemma NothingFreed<V>(s: HashSlot?<V>, view: map<int, V>, i: nat, level: nat, hashes: seq<int>, values: seq<V>)
    requires SlotValid(s, i, level) && IsPart(SlotView(s, i, level), view, i) && FreesBelow(view, i, hashes, values)
    ensures s == null ==> Part(s) == {} && FreesBelow(view, i + 1, hashes, values)
  {
  }

  lemma Single<T>(x: T)
    ensures NoDup([x]) && Elems([x]) == {x}
  {
  }

  lemma FreesNext<V>(view: map<int, V>, sub: map<int, V>, i: nat, hashes: seq<int>, values: seq<V>,
                     more: seq<int>, moreValues: seq<V>)
    requires FreesBelow(view, i, hashes, values) && IsPart(sub, view, i) && Frees(sub, more, moreValues)
    ensures FreesBelow(view, i + 1, hashes + more, values + moreValues)
  {
    MatchesJoin(view, sub, hashes, values, more, moreValues);
    hide NoDup, Elems, Matches;
    assert Elems(hashes) !! Elems(more) by {
      forall h | h in Elems(more)
        ensures h !in Elems(hashes)
      {
        assert h in sub;
      }
    }
    JoinElems(hashes, more);
    forall h
      ensures h in Elems(hashes + more) <==> h in view && h % 256 < i + 1
    {
      assert h in Elems(more) <==> h in sub;
    }
  }

  lemma MatchesJoin<V>(view: map<int, V>, sub: map<int, V>, hashes: seq<int>, values: seq<V>, more: seq<int>,
                       moreValues: seq<V>)
    requires |values| == |hashes| && Matches(view, hashes, values)
    requires |moreValues| == |more| && Matches(sub, more, moreValues) && Elems(more) == sub.Keys
    requires forall h :: h in sub ==> h in view && sub[h] == view[h]
    ensures Matches(view, hashes + more, values + moreValues)
  {
    forall k | 0 <= k < |hashes + more| && (hashes + more)[k] in view
      ensures (values + moreValues)[k] == view[(hashes + more)[k]]
    {
      if k >= |hashes| {
        var h := more[k - |hashes|];
        assert h in Elems(more);
        assert moreValues[k - |hashes|] == sub[h] == view[h];
      } else {
        assert values[k] == view[hashes[k]];
      }
    }
  }

  /** `whole` is `view` with the octet `i` put behind every hash. */
  ghost predicate Spreads<V>(whole: map<int, V>, view: map<int, V>, i: nat)
  {
    && (forall h :: h in whole <==> h % 256 == i && h / 256 in view)
    && forall h :: h in whole && h / 256 in view ==> whole[h] == view[h / 256]
  }

  lemma SlotSpreads<V>(s: HashSlot<V>, i: nat, level: nat)
    requires SlotValid(s, i, level) && s.table != null
    ensures s.table.Valid(level - 1) && Spreads(SlotView(s, i, level), s.table.View(level - 1), i)
  {
    var whole, view := SlotView(s, i, level), s.table.View(level - 1);
    forall h
      ensures h in whole <==> h % 256 == i && h / 256 in view
      ensures h in whole ==> whole[h] == view[h / 256]
    {
      if h in whole {
        NoLevel(level, h);
      }
    }
  }

  lemma FreesShifted<V>(whole: map<int, V>, view: map<int, V>, i: nat, hashes: seq<int>, values: seq<V>)
    requires Spreads(whole, view, i) && Frees(view, hashes, values) && i < 256
    ensures Frees(whole, Shifted(hashes, i), values)
  {
    var shifted := Shifted(hashes, i);
    forall k | 0 <= k < |hashes|
      ensures shifted[k] / 256 == hashes[k] && shifted[k] % 256 == i
      ensures shifted[k] in whole && values[k] == whole[shifted[k]]
    {
      assert hashes[k] in Elems(hashes);
    }
    ShiftedElems(whole, view, i, hashes);
    ShiftedNoDup(hashes, i);
  }

  lemma ShiftedNoDup(hashes: seq<int>, i: nat)
    requires NoDup(hashes)
    ensures NoDup(Shifted(hashes, i))
  {
  }

  lemma ShiftedElems<V>(whole: map<int, V>, view: map<int, V>, i: nat, hashes: seq<int>)
    requires Spreads(whole, view, i) && Elems(hashes) == view.Keys && i < 256
    ensures Elems(Shifted(hashes, i)) == whole.Keys
  {
    var shifted := Shifted(hashes, i);
    forall h | h in whole
      ensures h in Elems(shifted)
    {
      assert h / 256 in Elems(hashes);
      var k :| 0 <= k < |hashes| && hashes[k] == h / 256;
      assert shifted[k] == h;
    }
    forall h | h in Elems(shifted)
      ensures h in whole
    {
      var k :| 0 <= k < |shifted| && shifted[k] == h;
      assert hashes[k] in Elems(hashes);
      assert h / 256 == hashes[k] && h % 256 == i;
    }
  }

  /** Frees a slot with all that is below it, or else its value. */
  method FreeSlot<V>(pSlot: HashSlot<V>, ghost i: nat, ghost level: nat)
    returns (freed: seq<object>, values: seq<V>, ghost hashes: seq<int>)
    requires SlotValid(pSlot, i, level) && i < 256
    modifies Part(pSlot)
    ensures NoDup(freed) && Elems(freed) == old(Part(pSlot))
    ensures Frees(old(SlotView(pSlot, i, level)), hashes, values)
    decreases level, 0
  {
    ghost var part, whole := Part(pSlot), SlotView(pSlot, i, level);
    if pSlot.table != null {
      SlotSpreads(pSlot, i, level);
      ghost var view, below := pSlot.table.View(level - 1), pSlot.table.repr;
      freed, values, hashes := pSlot.table.FreeHashTable(level - 1);
      FreesShifted(whole, view, i, hashes, values);
      hashes := Shifted(hashes, i);
    } else {
      LeafView(pSlot, i, level);
      freed, values, hashes := [], [pSlot.value], [pSlot.hash];
    }
    JoinElems(freed, [pSlot]);
    freed := freed + [pSlot];
  }

  /** A table for 32-bit hashes, which four levels always suffice for. */
  method InitHash<V>() returns (table: Table<V>)
    ensures table.Valid(4) && table.View(4) == map[] && fresh(table.repr) && Pow256(4) == TWO_32
  {
    PowValues();
    table := new Table<V>();
    table.Empty(4);
  }
}
