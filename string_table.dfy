/** StringTable: the ME3 name table. Names are stored lower-cased, each
    once, with dense ids 0..Count-1 kept in a dictionary; Sort orders the
    names by their CRC and renumbers them. */
module Strings {
  import opened Wrappers
  import opened Primitives
  import opened Crc32
  import opened Sorting

  // ---------------------------------------------------------------------
  // The CRC order.

  /** A name's CRC as an unsigned number. */
  function Key(s: Str): nat
  {
    HashOf(s) as nat
  }

  /** Crc32StringComparer.Compare: the sign of the hash comparison. */
  function Compare(x: Str, y: Str): (r: int)
    ensures r == -1 || r == 0 || r == 1
  {
    var xh, yh := Key(x), Key(y);
    if xh < yh then -1 else if xh > yh then 1 else 0
  }

  /** The comparer is a total preorder: antisymmetric in sign, transitive,
      and 0 exactly on equal hashes. */
  lemma CompareIsPreorder(x: Str, y: Str, z: Str)
    ensures Compare(x, y) == -Compare(y, x)
    ensures Compare(x, y) == 0 <==> Key(x) == Key(y)
    ensures Compare(x, y) <= 0 && Compare(y, z) <= 0 ==> Compare(x, z) <= 0
    ensures Compare(x, x) == 0
  {
  }

  /** Sorted by CRC is exactly "Compare never says a later name is smaller". */
  lemma SortedByCompare(ss: seq<Str>)
    ensures SortedBy(ss, Key) <==> forall i, j :: 0 <= i < j < |ss| ==> Compare(ss[i], ss[j]) <= 0
  {
  }


  // ---------------------------------------------------------------------
  // The table.

  class StringTable {
    /** `_strings`: the names in id order. */
    var strings: seq<Str>
    /** `_map`: each name's id. */
    var ids: map<Str, int>

    /** The dictionary is the inverse of the list: every name has its index
        as id, and every key is a name at its id. */
    ghost predicate Valid()
      reads this
    {
      (forall i :: 0 <= i < |strings| ==> strings[i] in ids && ids[strings[i]] == i)
      && (forall s :: s in ids ==> 0 <= ids[s] < |strings| && strings[ids[s]] == s)
      && (forall i :: 0 <= i < |strings| ==> ToLower(strings[i]) == strings[i])
    }

    /** The capacity argument is only a size hint. */
    constructor ()
      ensures Valid() && strings == [] && ids == map[]
    {
      strings := [];
      ids := map[];
    }

    function Count(): (n: nat)
      reads this
      requires Valid()
      ensures n == |ids|
    {
      KeysAreNames(this);
      |strings|
    }

    /** Lower-cases the name and appends it when new. TooManyStringsException
        comes only after the 65,536th name is in. */
    method Add(str: Str) returns (r: Result<()>)
      requires Valid()
      modifies this
      ensures Valid()
      ensures ToLower(str) in old(ids) ==> r == Ok(()) && strings == old(strings) && ids == old(ids)
      ensures ToLower(str) !in old(ids) ==>
        strings == old(strings) + [ToLower(str)] && ids == old(ids)[ToLower(str) := |old(strings)|]
      ensures r.Err? <==> ToLower(str) !in old(ids) && |strings| > 0xFFFF
      ensures r.Err? ==> r.error == TooManyStrings
    {
      var lower := ToLower(str);
      ToLowerIdempotent(str);
      if lower !in ids {
        ids := ids[lower := |strings|];
        strings := strings + [lower];
        if |strings| > 0xFFFF {
          return Err(TooManyStrings);
        }
      }
      return Ok(());
    }

    /** The id, truncated to 16 bits; 0 when the name is absent. */
    function GetId(str: Str): (id: uint16)
      reads this
      requires Valid()
      ensures ToLower(str) in ids ==> id == ids[ToLower(str)] % 0x1_0000
      ensures ToLower(str) !in ids ==> id == 0
    {
      var lower := ToLower(str);
      if lower in ids then ids[lower] % 0x1_0000 else 0
    }

    /** `_strings[id]`; outside the list it raises ArgumentOutOfRangeException. */
    function GetString(id: int): (r: Result<Str>)
      reads this
      requires Valid()
      ensures r.Ok? <==> 0 <= id < |strings|
      ensures r.Ok? ==> r.value == strings[id] && ToLower(r.value) == r.value
      ensures r.Err? ==> r.error == ArgumentOutOfRange
    {
      if 0 <= id < |strings| then Ok(strings[id]) else Err(ArgumentOutOfRange)
    }

    /** Orders the names by CRC (the order among equal CRCs is not
        specified), then gives each name its new index as id. */
    method Sort()
      requires Valid()
      modifies this
      ensures Valid()
      ensures multiset(strings) == multiset(old(strings))
      ensures SortedBy(strings, Key)
      ensures ids.Keys == old(ids).Keys
    {
      TableDistinct(this);
      var sorted := SortBy(strings, Key);
      PermutationDistinct(strings, sorted);
      KeysInList(this, sorted);
      var m := Renumber(sorted, ids);
      SortedIndexed(strings, sorted, m);
      strings, ids := sorted, m;
    }
  }

  /** The loop of Sort: each name's index in the sorted list becomes its id. */
  method Renumber(sorted: seq<Str>, m0: map<Str, int>) returns (m: map<Str, int>)
    requires Distinct(sorted)
    requires forall s :: s in m0 <==> s in multiset(sorted)
    ensures m.Keys == m0.Keys
    ensures forall k :: 0 <= k < |sorted| ==> m[sorted[k]] == k
  {
    m := m0;
    var i, n := 0, |sorted|;
    while i < n
      invariant 0 <= i <= n == |sorted|
      invariant m.Keys == m0.Keys
      invariant forall k :: 0 <= k < i ==> m[sorted[k]] == k
    {
      assert sorted[i] in multiset(sorted);
      m := m[sorted[i] := i];
      i := i + 1;
    }
  }

  /** The table's dictionary holds exactly the names of its list. */
  lemma InTable(t: StringTable, s: Str)
    requires t.Valid()
    ensures s in t.ids <==> s in t.strings
  {
    if s in t.strings {
      var i :| 0 <= i < |t.strings| && t.strings[i] == s;
    }
  }

  /** The table's keys are the names of any permutation of its list. */
  lemma KeysInList(t: StringTable, sorted: seq<Str>)
    requires t.Valid() && multiset(sorted) == multiset(t.strings)
    ensures forall s :: s in t.ids <==> s in multiset(sorted)
  {
    forall s
      ensures s in t.ids <==> s in multiset(t.strings)
    {
      if s in multiset(t.strings) {
        var k :| 0 <= k < |t.strings| && t.strings[k] == s;
      }
    }
  }

  lemma PermutationLower(a: seq<Str>, b: seq<Str>)
    requires forall i :: 0 <= i < |a| ==> ToLower(a[i]) == a[i]
    requires multiset(a) == multiset(b)
    ensures forall j :: 0 <= j < |b| ==> ToLower(b[j]) == b[j]
  {
    forall j | 0 <= j < |b|
      ensures ToLower(b[j]) == b[j]
    {
      assert b[j] in multiset(a);
      var k :| 0 <= k < |a| && a[k] == b[j];
    }
  }

  /** After renumbering a list of distinct names, the map is its inverse. */
  lemma Renumbered(sorted: seq<Str>, m: map<Str, int>)
    requires Distinct(sorted)
    requires forall s :: s in m <==> s in multiset(sorted)
    requires forall k :: 0 <= k < |sorted| ==> m[sorted[k]] == k
    ensures forall s :: s in m ==> 0 <= m[s] < |sorted| && sorted[m[s]] == s
  {
    forall s | s in m
      ensures 0 <= m[s] < |sorted| && sorted[m[s]] == s
    {
      assert s in multiset(sorted);
      var k :| 0 <= k < |sorted| && sorted[k] == s;
    }
  }

  /** The renumbered permutation of a lower-cased list is a valid table. */
  lemma SortedIndexed(strings: seq<Str>, sorted: seq<Str>, m: map<Str, int>)
    requires forall i :: 0 <= i < |strings| ==> ToLower(strings[i]) == strings[i]
    requires multiset(strings) == multiset(sorted) && Distinct(sorted)
    requires forall s :: s in m <==> s in multiset(sorted)
    requires forall k :: 0 <= k < |sorted| ==> m[sorted[k]] == k
    ensures forall i :: 0 <= i < |sorted| ==> sorted[i] in m && m[sorted[i]] == i
    ensures forall s :: s in m ==> 0 <= m[s] < |sorted| && sorted[m[s]] == s
    ensures forall i :: 0 <= i < |sorted| ==> ToLower(sorted[i]) == sorted[i]
  {
    forall i | 0 <= i < |sorted|
      ensures sorted[i] in m
    {
      assert sorted[i] in multiset(sorted);
    }
    Renumbered(sorted, m);
    PermutationLower(strings, sorted);
  }

  lemma TableDistinct(t: StringTable)
    requires t.Valid()
    ensures Distinct(t.strings)
  {
  }

  /** The set of names in a list. */
  ghost function NameSet(ss: seq<Str>): (names: set<Str>)
    ensures forall x :: x in names <==> x in ss
  {
    if ss == [] then {} else NameSet(ss[..|ss| - 1]) + {ss[|ss| - 1]}
  }

  lemma {:induction false} NameSetSize(ss: seq<Str>)
    requires Distinct(ss)
    ensures |NameSet(ss)| == |ss|
  {
    if ss != [] {
      var init := ss[..|ss| - 1];
      assert ss[|ss| - 1] !in init;
      NameSetSize(init);
    }
  }

  /** The dictionary has exactly Count keys. */
  lemma KeysAreNames(t: StringTable)
    requires t.Valid()
    ensures |t.ids| == |t.strings|
  {
    assert t.ids.Keys == NameSet(t.strings);
    NameSetSize(t.strings);
  }

  /** Looking a name up by id finds its lower-cased form, as long as the
      ids still fit in 16 bits. */
  lemma IdRoundTrip(t: StringTable, s: Str)
    requires t.Valid() && ToLower(s) in t.ids && |t.strings| <= 0x1_0000
    ensures t.GetString(t.GetId(s)) == Ok(ToLower(s))
  {
  }
}
