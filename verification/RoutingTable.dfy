/**
 * The routing table of routing_table_static_array.h: a vector of pairs that is searched linearly, and
 * the map it stands for.
 */
module RoutingTable {
  import opened VectorStatic

  datatype Entry<K, V> = Entry(first: K, second: V)

  /** The map a list of pairs stands for: the first pair of a key counts. */
  function ToMap<K, V>(s: seq<Entry<K, V>>): map<K, V> {
    if s == [] then map[] else ToMap(s[1..])[s[0].first := s[0].second]
  }

  predicate DistinctKeys<K(==), V>(s: seq<Entry<K, V>>) {
    forall i, j | 0 <= i < j < |s| :: s[i].first != s[j].first
  }

  predicate HasKey<K(==), V>(s: seq<Entry<K, V>>, k: K) {
    exists i | 0 <= i < |s| :: s[i].first == k
  }

  lemma {:induction false} MapOf<K, V>(s: seq<Entry<K, V>>)
    ensures forall k :: k in ToMap(s) <==> HasKey(s, k)
    ensures DistinctKeys(s) ==> forall i | 0 <= i < |s| :: s[i].first in ToMap(s) && ToMap(s)[s[i].first] == s[i].second
    ensures DistinctKeys(s) ==> |ToMap(s)| == |s|
  {
    if s != [] {
      MapOf(s[1..]);
      assert s == [s[0]] + s[1..];
      forall k | HasKey(s, k) && k != s[0].first ensures HasKey(s[1..], k) {
        var i :| 0 <= i < |s| && s[i].first == k;
        assert s[1..][i - 1].first == k;
      }
      forall k | HasKey(s[1..], k) ensures HasKey(s, k) {
        var i :| 0 <= i < |s[1..]| && s[1..][i].first == k;
        assert s[i + 1].first == k;
      }
      assert HasKey(s, s[0].first);
    }
  }

  lemma {:induction false} AppendNew<K, V>(s: seq<Entry<K, V>>, k: K, v: V)
    requires DistinctKeys(s) && !HasKey(s, k)
    ensures DistinctKeys(s + [Entry(k, v)])
    ensures ToMap(s + [Entry(k, v)]) == ToMap(s)[k := v]
  {
    var t := s + [Entry(k, v)];
    if s == [] {
      assert t[1..] == [];
    } else {
      assert t[1..] == s[1..] + [Entry(k, v)];
      forall i | 0 <= i < |s[1..]| ensures s[1..][i].first != k {
        assert s[1..][i] == s[i + 1];
      }
      AppendNew(s[1..], k, v);
    }
  }

  lemma {:induction false} UpdateAt<K, V>(s: seq<Entry<K, V>>, i: nat, v: V)
    requires DistinctKeys(s) && i < |s|
    ensures DistinctKeys(s[i := Entry(s[i].first, v)])
    ensures ToMap(s[i := Entry(s[i].first, v)]) == ToMap(s)[s[i].first := v]
  {
    var t := s[i := Entry(s[i].first, v)];
    if i == 0 {
      assert t[1..] == s[1..];
    } else {
      assert t[1..] == s[1..][i - 1 := Entry(s[1..][i - 1].first, v)];
      UpdateAt(s[1..], i - 1, v);
    }
  }

  class RoutingTable<K(==), V(==)> {
    const table: VectorStatic<Entry<K, V>>
    /** What a write to a key without a place goes to. */
    var dummy: V

    constructor (table: VectorStatic<Entry<K, V>>, dummy: V)
      requires table.Valid() && table.Contents() == []
      ensures this.table == table && Valid() && ToMap(table.Contents()) == map[]
    {
      this.table, this.dummy := table, dummy;
    }

    ghost predicate Valid()
      reads this, table, table.vec
    {
      table.Valid() && DistinctKeys(table.Contents())
    }

    ghost function Pairs(): seq<Entry<K, V>>
      requires table.Valid()
      reads table, table.vec
    {
      table.Contents()
    }

    method Find(k: K) returns (r: nat)
      requires Valid()
      ensures r <= table.finish
      ensures r < table.finish ==> Pairs()[r].first == k
      ensures r < table.finish <==> k in ToMap(Pairs())
      ensures r < table.finish ==> Pairs()[r].second == ToMap(Pairs())[k]
    {
      MapOf(Pairs());
      r := 0;
      while r != table.finish
        invariant r <= table.finish
        invariant forall i | 0 <= i < r :: Pairs()[i].first != k
        decreases table.finish - r
      {
        if table.vec[r].first == k {
          assert Pairs()[r].first == k;
          return;
        }
        r := r + 1;
      }
    }

    /** operator[]: the place of the key, which is made when there is room; `table.finish` stands for the
        dummy. `junk` is the uninitialised value of a new pair. */
    method Subscript(k: K, junk: V) returns (place: nat)
      requires Valid()
      modifies table`finish, table.vec
      ensures Valid() && place <= table.finish
      ensures k in ToMap(old(Pairs())) ==> Pairs() == old(Pairs())
      ensures k !in ToMap(old(Pairs())) && old(table.finish) < table.capacity ==>
        Pairs() == old(Pairs()) + [Entry(k, junk)]
      ensures k !in ToMap(old(Pairs())) && old(table.finish) == table.capacity ==>
        Pairs() == old(Pairs()) && place == table.finish
      ensures place < table.finish <==> k in ToMap(old(Pairs())) || old(table.finish) < table.capacity
      ensures place < table.finish ==> Pairs()[place].first == k
    {
      place := Find(k);
      if place != table.finish {
        return;
      }
      MapOf(Pairs());
      ghost var before := Pairs();
      if table.finish < table.capacity {
        AppendNew(before, k, junk);
      }
      table.PushBack(Entry(k, junk));
      MapOf(Pairs());
      place := Find(k);
    }

    /** table[k] = v */
    method Put(k: K, v: V, junk: V)
      requires Valid()
      modifies this`dummy, table`finish, table.vec
      ensures Valid()
      ensures k in ToMap(old(Pairs())) || old(table.finish) < table.capacity ==>
        ToMap(Pairs()) == ToMap(old(Pairs()))[k := v] && dummy == old(dummy)
      ensures k !in ToMap(old(Pairs())) && old(table.finish) == table.capacity ==>
        Pairs() == old(Pairs()) && dummy == v
    {
      ghost var before := Pairs();
      var place := Subscript(k, junk);
      if place == table.finish {
        dummy := v;
      } else {
        ghost var middle := Pairs();
        Subscripted(before, middle, k, junk, v);
        UpdateAt(middle, place, v);
        table.vec[place] := Entry(k, v);
        assert Pairs() == middle[place := Entry(k, v)];
      }
    }

    method Insert(x: Entry<K, V>) returns (place: nat)
      requires Valid()
      modifies table`finish, table.vec
      ensures Valid() && place <= table.finish
      ensures x.first in ToMap(old(Pairs())) ==> Pairs() == old(Pairs())
      ensures x.first !in ToMap(old(Pairs())) && old(table.finish) < table.capacity ==>
        Pairs() == old(Pairs()) + [x] && ToMap(Pairs()) == ToMap(old(Pairs()))[x.first := x.second]
      ensures x.first !in ToMap(old(Pairs())) && old(table.finish) == table.capacity ==>
        Pairs() == old(Pairs()) && place == table.finish
      ensures place < table.finish ==> Pairs()[place].first == x.first
    {
      place := Find(x.first);
      if place != table.finish {
        return;
      }
      MapOf(Pairs());
      ghost var before := Pairs();
      if table.finish < table.capacity {
        AppendNew(before, x.first, x.second);
      }
      place := table.Insert(table.finish, x);
      if |before| < table.capacity {
        assert Pairs() == before + [x];
      }
    }
  }

  /** Making a place changes the map only at the key, which an assignment then overwrites. */
  lemma Subscripted<K, V>(before: seq<Entry<K, V>>, middle: seq<Entry<K, V>>, k: K, junk: V, v: V)
    requires DistinctKeys(before)
    requires middle == before || (k !in ToMap(before) && middle == before + [Entry(k, junk)])
    ensures ToMap(middle)[k := v] == ToMap(before)[k := v]
  {
    if middle != before {
      MapOf(before);
      AppendNew(before, k, junk);
    }
  }
}
