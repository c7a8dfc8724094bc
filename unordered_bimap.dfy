/**
 * `ste::unordered_bimap`: a one-to-one map between keys and values, kept
 * as an `std::unordered_map` of (key, value) pairs whose hash is constant
 * and whose equality holds when either the keys or the values are equal.
 * An insertion is therefore refused whenever the key or the value is
 * already present.
 *
 * The underlying map is modelled as the sequence of its entries in
 * iteration order; a new entry is placed last.
 */
module UnorderedBimaps {
  import opened Wrappers

  /** Two entries the underlying map's equality identifies: same key or same value. */
  predicate Clash<K(==), V(==)>(a: (K, V), b: (K, V))
  {
    a.0 == b.0 || a.1 == b.1
  }

  /** No two entries share a key or a value. */
  ghost predicate OneToOne<K, V>(entries: seq<(K, V)>)
  {
    forall i, j | 0 <= i < j < |entries| :: !Clash(entries[i], entries[j])
  }

  /** The first entry that clashes with `e`, as the underlying map's look-up finds it. */
  function FirstClash<K(==), V(==)>(entries: seq<(K, V)>, e: (K, V)): (r: Option<nat>)
    ensures r.Some? ==> r.value < |entries| && Clash(entries[r.value], e)
    ensures r.Some? ==> forall j | 0 <= j < r.value :: !Clash(entries[j], e)
    ensures r.None? <==> forall j | 0 <= j < |entries| :: !Clash(entries[j], e)
  {
    if entries == [] then None
    else if Clash(entries[0], e) then Some(0)
    else match FirstClash(entries[1..], e)
      case None => None
      case Some(i) => Some(i + 1)
  }

  /** `entries` without the entry at `i`. */
  function Without<K, V>(entries: seq<(K, V)>, i: nat): (r: seq<(K, V)>)
    requires i < |entries|
    ensures |r| == |entries| - 1
    ensures forall j | 0 <= j < i :: r[j] == entries[j]
    ensures forall j | i <= j < |r| :: r[j] == entries[j + 1]
  {
    entries[..i] + entries[i + 1..]
  }

  /** Adding an entry that clashes with none keeps the map one-to-one. */
  lemma AppendKeepsOneToOne<K, V>(entries: seq<(K, V)>, e: (K, V))
    requires OneToOne(entries) && FirstClash(entries, e).None?
    ensures OneToOne(entries + [e])
  {
    var r := entries + [e];
    forall i, j | 0 <= i < j < |r|
      ensures !Clash(r[i], r[j])
    {
      if j == |entries| {
        assert !Clash(entries[i], e);
      }
    }
  }

  /** Removing an entry keeps the map one-to-one. */
  lemma WithoutKeepsOneToOne<K, V>(entries: seq<(K, V)>, i: nat)
    requires OneToOne(entries) && i < |entries|
    ensures OneToOne(Without(entries, i))
  {
    var r := Without(entries, i);
    forall a, b | 0 <= a < b < |r|
      ensures !Clash(r[a], r[b])
    {
      var a', b' := if a < i then a else a + 1, if b < i then b else b + 1;
      assert r[a] == entries[a'] && r[b] == entries[b'] && a' < b';
    }
  }

  /** In a one-to-one map, every other entry has another key and another value. */
  lemma OthersDiffer<K, V>(entries: seq<(K, V)>, i: nat)
    requires OneToOne(entries) && i < |entries|
    ensures forall j | 0 <= j < |entries| && j != i :: entries[j].0 != entries[i].0 && entries[j].1 != entries[i].1
  {
    forall j | 0 <= j < |entries| && j != i
      ensures entries[j].0 != entries[i].0 && entries[j].1 != entries[i].1
    {
      if j < i {
        assert !Clash(entries[j], entries[i]);
      } else {
        assert !Clash(entries[i], entries[j]);
      }
    }
  }

  /** The entries `erase_if` keeps: those the predicate rejects, in order. */
  function Kept<K, V>(entries: seq<(K, V)>, pred: ((K, V)) -> bool): (r: seq<(K, V)>)
    ensures |r| <= |entries|
  {
    if entries == [] then []
    else
      var last := entries[|entries| - 1];
      Kept(entries[..|entries| - 1], pred) + (if pred(last) then [] else [last])
  }

  /** The number of entries the predicate accepts. */
  function Matching<K, V>(entries: seq<(K, V)>, pred: ((K, V)) -> bool): nat
  {
    if entries == [] then 0
    else Matching(entries[..|entries| - 1], pred) + (if pred(entries[|entries| - 1]) then 1 else 0)
  }

  /**
   * The entries kept are exactly those the predicate rejects, and as many
   * are kept as the predicate does not accept.
   */
  lemma {:induction false} KeptExactly<K, V>(entries: seq<(K, V)>, pred: ((K, V)) -> bool)
    ensures |Kept(entries, pred)| + Matching(entries, pred) == |entries|
    ensures forall e | e in Kept(entries, pred) :: e in entries && !pred(e)
    ensures forall e | e in entries && !pred(e) :: e in Kept(entries, pred)
  {
    if entries != [] {
      var front := entries[..|entries| - 1];
      KeptExactly(front, pred);
      assert entries == front + [entries[|entries| - 1]];
    }
  }

  lemma KeptSnoc<K, V>(entries: seq<(K, V)>, e: (K, V), pred: ((K, V)) -> bool)
    ensures Kept(entries + [e], pred) == Kept(entries, pred) + (if pred(e) then [] else [e])
  {
    assert (entries + [e])[..|entries|] == entries;
  }

  /** Keeping a subsequence of a one-to-one map keeps it one-to-one. */
  lemma {:induction false} KeptKeepsOneToOne<K, V>(entries: seq<(K, V)>, pred: ((K, V)) -> bool)
    requires OneToOne(entries)
    ensures OneToOne(Kept(entries, pred))
  {
    if entries != [] {
      var front := entries[..|entries| - 1];
      var last := entries[|entries| - 1];
      assert OneToOne(front);
      KeptKeepsOneToOne(front, pred);
      KeptExactly(front, pred);
      if !pred(last) {
        forall j | 0 <= j < |Kept(front, pred)|
          ensures !Clash(Kept(front, pred)[j], last)
        {
          var e := Kept(front, pred)[j];
          assert e in Kept(front, pred);
          assert e in front;
          var i :| 0 <= i < |front| && front[i] == e;
          assert !Clash(entries[i], entries[|entries| - 1]);
        }
        FirstClashNone(Kept(front, pred), last);
        AppendKeepsOneToOne(Kept(front, pred), last);
      }
    }
  }

  lemma FirstClashNone<K, V>(entries: seq<(K, V)>, e: (K, V))
    requires forall j | 0 <= j < |entries| :: !Clash(entries[j], e)
    ensures FirstClash(entries, e).None?
  {
  }

  /** The index of the first entry with key `k`, or the number of entries. */
  function FindKeyIn<K(==), V>(entries: seq<(K, V)>, k: K): (i: nat)
    ensures i <= |entries| && (i < |entries| ==> entries[i].0 == k)
    ensures forall j | 0 <= j < i :: entries[j].0 != k
  {
    if entries == [] then 0
    else if entries[0].0 == k then 0
    else 1 + FindKeyIn(entries[1..], k)
  }

  /**
   * `assign_value` as written: the entry of `k` is erased and (k, t) is
   * inserted, which the map refuses when another key already has `t`.
   */
  function AssignValueAsWritten<K(==), V(==)>(entries: seq<(K, V)>, k: K, t: V): seq<(K, V)>
  {
    var i := FindKeyIn(entries, k);
    if i == |entries| then entries
    else
      var rest := Without(entries, i);
      if FirstClash(rest, (k, t)).None? then rest + [(k, t)] else rest
  }

  /** As written, giving key 1 the value of key 2 loses key 1 altogether. */
  lemma AssignValueAsWrittenLosesKey()
    ensures AssignValueAsWritten([(1, 10), (2, 20)], 1, 20) == [(2, 20)]
  {
    var entries := [(1, 10), (2, 20)];
    assert FindKeyIn(entries, 1) == 0;
    var rest := Without(entries, 0);
    assert rest == [(2, 20)];
    assert Clash(rest[0], (1, 20));
  }

  /**
   * `assign_value` as intended: the entry of `k` gets the value `t` unless
   * another key already has it, in which case nothing changes.
   */
  function AssignedValue<K(==), V(==)>(entries: seq<(K, V)>, k: K, t: V): seq<(K, V)>
  {
    var i := FindKeyIn(entries, k);
    if i == |entries| then entries
    else
      var rest := Without(entries, i);
      if FirstClash(rest, (k, t)).None? then rest + [(k, t)] else entries
  }

  /**
   * The intended `assign_value` keeps the map one-to-one and its size, does
   * nothing for an absent key, and never loses a present key: the key ends
   * up with `t`, or keeps its value when another key has `t`.
   */
  lemma AssignedValueKeepsKey<K, V>(entries: seq<(K, V)>, k: K, t: V)
    requires OneToOne(entries)
    ensures var r := AssignedValue(entries, k, t);
      OneToOne(r) && |r| == |entries|
      && ((forall j | 0 <= j < |entries| :: entries[j].0 != k) ==> r == entries)
      && ((exists j | 0 <= j < |entries| :: entries[j].0 == k) ==>
            (k, t) in r || (r == entries && exists j | 0 <= j < |entries| :: entries[j].0 != k && entries[j].1 == t))
  {
    var i := FindKeyIn(entries, k);
    if i < |entries| {
      var rest := Without(entries, i);
      WithoutKeepsOneToOne(entries, i);
      if FirstClash(rest, (k, t)).None? {
        AppendKeepsOneToOne(rest, (k, t));
        assert (rest + [(k, t)])[|rest|] == (k, t);
      } else {
        var c := FirstClash(rest, (k, t)).value;
        var c' := if c < i then c else c + 1;
        assert rest[c] == entries[c'] && c' != i;
        OthersDiffer(entries, i);
      }
    }
  }

  class UnorderedBimap<K(==), V(==)> {
    /** The entries of the underlying map, in iteration order. */
    var entries: seq<(K, V)>

    ghost predicate Valid()
      reads this
    {
      OneToOne(entries)
    }

    constructor ()
      ensures entries == [] && Valid()
    {
      entries := [];
    }

    function Size(): (n: nat)
      reads this
      ensures n == |entries|
    {
      |entries|
    }

    /**
     * `insert(k, t)`: adds (k, t) when neither the key nor the value is
     * present; otherwise the map is unchanged and `index` is the entry that
     * clashed.
     */
    method Insert(k: K, t: V) returns (index: nat, inserted: bool)
      requires Valid()
      modifies this
      ensures Valid()
      ensures inserted <==> forall j | 0 <= j < |old(entries)| :: old(entries)[j].0 != k && old(entries)[j].1 != t
      ensures inserted ==> entries == old(entries) + [(k, t)] && index == |old(entries)|
      ensures !inserted ==> entries == old(entries) && index < |entries|
      ensures !inserted ==> entries[index].0 == k || entries[index].1 == t
    {
      match FirstClash(entries, (k, t))
      case Some(i) =>
        return i, false;
      case None =>
        AppendKeepsOneToOne(entries, (k, t));
        entries := entries + [(k, t)];
        return |entries| - 1, true;
    }

    /** `find_key`: the first entry with key `k` in iteration order, or `Size()` (the end) when there is none. */
    method FindKey(k: K) returns (index: nat)
      ensures index <= |entries|
      ensures index < |entries| ==> entries[index].0 == k
      ensures index == |entries| <==> forall j | 0 <= j < |entries| :: entries[j].0 != k
    {
      index := 0;
      while index < |entries|
        invariant index <= |entries|
        invariant forall j | 0 <= j < index :: entries[j].0 != k
      {
        if entries[index].0 == k {
          return;
        }
        index := index + 1;
      }
    }

    /** `find_value`: the first entry with value `t` in iteration order, or `Size()` when there is none. */
    method FindValue(t: V) returns (index: nat)
      ensures index <= |entries|
      ensures index < |entries| ==> entries[index].1 == t
      ensures index == |entries| <==> forall j | 0 <= j < |entries| :: entries[j].1 != t
    {
      index := 0;
      while index < |entries|
        invariant index <= |entries|
        invariant forall j | 0 <= j < index :: entries[j].1 != t
      {
        if entries[index].1 == t {
          return;
        }
        index := index + 1;
      }
    }

    /** `contains_key`: whether `find_key` finds an entry. */
    method ContainsKey(k: K) returns (found: bool)
      ensures found <==> exists j | 0 <= j < |entries| :: entries[j].0 == k
    {
      var index := FindKey(k);
      found := index != |entries|;
    }

    /** `at_key`: the entry with key `k`, or `out_of_range` when there is none. */
    method AtKey(k: K) returns (r: Result<(K, V), string>)
      requires Valid()
      ensures r.Ok? <==> exists j | 0 <= j < |entries| :: entries[j].0 == k
      ensures r.Ok? ==> r.value.0 == k && r.value in entries
    {
      var index := FindKey(k);
      if index == |entries| {
        return Err("No entry with such key.");
      }
      return Ok(entries[index]);
    }

    /** `erase_key`: removes the entry with key `k` and returns 1, or returns 0 when there is none. */
    method EraseKey(k: K) returns (count: nat)
      requires Valid()
      modifies this
      ensures Valid()
      ensures count == 1 <==> exists j | 0 <= j < |old(entries)| :: old(entries)[j].0 == k
      ensures count == 0 ==> entries == old(entries)
      ensures count == 1 ==> exists j | 0 <= j < |old(entries)| ::
        old(entries)[j].0 == k && entries == Without(old(entries), j)
      ensures forall j | 0 <= j < |entries| :: entries[j].0 != k
    {
      var index := FindKey(k);
      if index == |entries| {
        return 0;
      }
      OthersDiffer(entries, index);
      WithoutKeepsOneToOne(entries, index);
      entries := Without(entries, index);
      return 1;
    }

    /** `erase_value`: removes the entry with value `t` and returns 1, or returns 0 when there is none. */
    method EraseValue(t: V) returns (count: nat)
      requires Valid()
      modifies this
      ensures Valid()
      ensures count == 1 <==> exists j | 0 <= j < |old(entries)| :: old(entries)[j].1 == t
      ensures count == 0 ==> entries == old(entries)
      ensures count == 1 ==> exists j | 0 <= j < |old(entries)| ::
        old(entries)[j].1 == t && entries == Without(old(entries), j)
      ensures forall j | 0 <= j < |entries| :: entries[j].1 != t
    {
      var index := FindValue(t);
      if index == |entries| {
        return 0;
      }
      OthersDiffer(entries, index);
      WithoutKeepsOneToOne(entries, index);
      entries := Without(entries, index);
      return 1;
    }

    /**
     * `assign_value`: gives key `k` the value `t`; nothing changes when `k`
     * is absent, or when another key already has `t`.
     */
    method AssignValue(k: K, t: V)
      requires Valid()
      modifies this
      ensures entries == AssignedValue(old(entries), k, t) && Valid()
    {
      AssignedValueKeepsKey(entries, k, t);
      var index := FindKey(k);
      if index == |entries| {
        return;
      }
      var rest := Without(entries, index);
      if FirstClash(rest, (k, t)).None? {
        entries := rest + [(k, t)];
      }
    }
  }

  /**
   * `erase_if`: removes every entry the predicate accepts, visiting them in
   * iteration order, and returns how many it removed.
   */
  method EraseIf<K(==), V(==)>(m: UnorderedBimap<K, V>, pred: ((K, V)) -> bool) returns (erased: nat)
    requires m.Valid()
    modifies m
    ensures m.Valid()
    ensures m.entries == Kept(old(m.entries), pred)
    ensures erased == |old(m.entries)| - |m.entries| == Matching(old(m.entries), pred)
  {
    var oldSize := m.Size();
    ghost var original := m.entries;
    ghost var visited := 0;
    var i := 0;
    while i < |m.entries|
      invariant visited <= |original|
      invariant m.entries == Kept(original[..visited], pred) + original[visited..]
      invariant i == |Kept(original[..visited], pred)|
      decreases |original| - visited
    {
      EraseIfStep(original, visited, pred, m.entries);
      if pred(m.entries[i]) {
        m.entries := Without(m.entries, i);
      } else {
        i := i + 1;
      }
      visited := visited + 1;
    }
    assert original[..visited] == original;
    KeptKeepsOneToOne(original, pred);
    KeptExactly(original, pred);
    erased := oldSize - m.Size();
  }

  /** One step of `erase_if`: the entry visited is erased when the predicate accepts it, else kept. */
  lemma EraseIfStep<K, V>(original: seq<(K, V)>, visited: nat, pred: ((K, V)) -> bool, entries: seq<(K, V)>)
    requires visited < |original|
    requires entries == Kept(original[..visited], pred) + original[visited..]
    ensures var i := |Kept(original[..visited], pred)|;
      i < |entries| && entries[i] == original[visited]
    ensures var i := |Kept(original[..visited], pred)|;
      pred(original[visited]) ==>
        (Without(entries, i) == Kept(original[..visited + 1], pred) + original[visited + 1..]
         && i == |Kept(original[..visited + 1], pred)|)
    ensures var i := |Kept(original[..visited], pred)|;
      !pred(original[visited]) ==>
        (entries == Kept(original[..visited + 1], pred) + original[visited + 1..]
         && i + 1 == |Kept(original[..visited + 1], pred)|)
  {
    var kept, e, later := Kept(original[..visited], pred), original[visited], original[visited + 1..];
    assert original[..visited + 1] == original[..visited] + [e];
    KeptSnoc(original[..visited], e, pred);
    assert original[visited..] == [e] + later;
    if pred(e) {
      WithoutAfter(kept, [e] + later);
      assert ([e] + later)[1..] == later;
    } else {
      assert entries == (kept + [e]) + later;
    }
  }

  lemma WithoutAfter<K, V>(a: seq<(K, V)>, b: seq<(K, V)>)
    requires |b| > 0
    ensures Without(a + b, |a|) == a + b[1..]
  {
    assert (a + b)[..|a|] == a && (a + b)[|a| + 1..] == b[1..];
  }
}
