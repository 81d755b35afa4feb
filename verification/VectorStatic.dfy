/**
 * The fixed-capacity vector of vector_static.h. The array has one cell more than the capacity: that last
 * cell is whatever lies behind the vector in memory, which `Erase` reads when the vector is full.
 */
module VectorStatic {

  /** `s` with `x` in front of position `at`. */
  function Inserted<T>(s: seq<T>, at: nat, x: T): (r: seq<T>)
    requires at <= |s|
  {
    s[..at] + [x] + s[at..]
  }

  /** `s` without the elements from `first` up to `last`. */
  function Without<T>(s: seq<T>, first: nat, last: nat): (r: seq<T>)
    requires first <= last <= |s|
  {
    s[..first] + s[last..]
  }

  function Repeat<T>(n: nat, x: T): (r: seq<T>)
    ensures |r| == n
  {
    if n == 0 then [] else Repeat(n - 1, x) + [x]
  }

  /** What a vector of this capacity keeps of what is pushed into it. */
  function Capped<T>(s: seq<T>, capacity: nat): (r: seq<T>) {
    if |s| <= capacity then s else s[..capacity]
  }

  /** Where the elements are afterwards. */
  lemma PlacesAfter<T>(s: seq<T>, first: nat, last: nat, x: T, i: nat)
    requires first <= last <= |s|
    ensures |Inserted(s, first, x)| == |s| + 1 && |Without(s, first, last)| == |s| - (last - first)
    ensures i <= |s| ==>
      Inserted(s, first, x)[i] == if i < first then s[i] else if i == first then x else s[i - 1]
    ensures i < |s| - (last - first) ==> Without(s, first, last)[i] == if i < first then s[i] else s[i + last - first]
    ensures i < last ==> Repeat(last, x)[i] == x
  {
    RepeatIs(last, x);
  }

  lemma {:induction false} RepeatIs<T>(n: nat, x: T)
    ensures forall i | 0 <= i < n :: Repeat(n, x)[i] == x
  {
    if n > 0 {
      RepeatIs(n - 1, x);
    }
  }

  /** Erasing what was inserted restores the sequence, and the other way round. */
  lemma InsertThenErase<T>(s: seq<T>, at: nat, x: T)
    requires at <= |s|
    ensures Without(Inserted(s, at, x), at, at + 1) == s
    ensures at < |s| ==> Inserted(Without(s, at, at + 1), at, s[at]) == s
    ensures forall k | 0 <= k <= |s| ::
        Inserted(s, at, x)[k] == (if k < at then s[k] else if k == at then x else s[k - 1])
  {
  }

  lemma IsInserted<T>(before: seq<T>, now: seq<T>, at: nat, x: T, last: T)
    requires at <= |before| == |now|
    requires forall k | 0 <= k < at :: now[k] == before[k]
    requires forall k | at < k < |now| :: now[k] == before[k - 1]
    requires if at == |now| then last == x else now[at] == x && last == before[|now| - 1]
    ensures now + [last] == Inserted(before, at, x)
  {
  }

  lemma IsWithout<T>(before: seq<T>, now: seq<T>, first: nat, last: nat)
    requires first <= last <= |before| && |now| == |before| - (last - first)
    requires forall k | 0 <= k < first :: now[k] == before[k]
    requires forall k | first <= k < |now| :: now[k] == before[k + (last - first)]
    ensures now == Without(before, first, last)
  {
  }

  class VectorStatic<T(==)> {
    const capacity: nat
    const vec: array<T>
    var finish: nat

    constructor (capacity: nat, memory: array<T>)
      requires memory.Length == capacity + 1
      ensures this.capacity == capacity && vec == memory
      ensures Valid() && Contents() == []
    {
      this.capacity, vec, finish := capacity, memory, 0;
    }

    ghost predicate Valid()
      reads this
    {
      vec.Length == capacity + 1 && finish <= capacity
    }

    ghost function Contents(): (s: seq<T>)
      requires Valid()
      reads this, vec
    {
      vec[..finish]
    }

    method Clear()
      requires Valid()
      modifies `finish
      ensures Valid() && Contents() == []
    {
      finish := 0;
    }

    method PushBack(x: T)
      requires Valid()
      modifies `finish, vec
      ensures Valid() && Contents() == Capped(old(Contents()) + [x], capacity)
    {
      if finish != capacity {
        vec[finish] := x;
        finish := finish + 1;
      }
    }

    method PopBack()
      requires Valid()
      modifies `finish
      ensures Valid()
      ensures Contents() == if old(finish) == 0 then [] else old(Contents())[..old(finish) - 1]
    {
      if finish != 0 {
        finish := finish - 1;
      }
    }

    /** assign( n, x ) */
    method Assign(n: nat, x: T)
      requires Valid()
      modifies `finish, vec
      ensures Valid() && Contents() == Repeat(if n <= capacity then n else capacity, x)
    {
      Clear();
      for i := 0 to n
        invariant Valid() && finish == (if i <= capacity then i else capacity)
        invariant Contents() == Repeat(finish, x)
      {
        PushBack(x);
      }
    }

    /** assign( first, last ): the range is given as the sequence it spans. */
    method AssignRange(range: seq<T>)
      requires Valid()
      modifies `finish, vec
      ensures Valid() && Contents() == Capped(range, capacity)
    {
      Clear();
      for i := 0 to |range|
        invariant Valid() && Contents() == Capped(range[..i], capacity)
      {
        PushBack(range[i]);
        assert range[..i + 1] == range[..i] + [range[i]];
      }
      assert range[..|range|] == range;
    }

    /** Shifts the tail up by one, carrying one element at a time. A full vector stays as it is, and the
        end is returned. */
    method Insert(position: nat, x: T) returns (r: nat)
      requires Valid() && position <= finish
      modifies `finish, vec
      ensures Valid()
      ensures old(finish) == capacity ==> Contents() == old(Contents()) && r == finish
      ensures old(finish) < capacity ==> Contents() == Inserted(old(Contents()), position, x) && r == position
    {
      if finish == capacity {
        return finish;
      }
      var cur := ShiftUp(position, x);
      PushBack(cur);
      r := position;
    }

    /** The carrying loop: what does not fit any more is returned. */
    method ShiftUp(position: nat, x: T) returns (cur: T)
      requires Valid() && position <= finish
      modifies vec
      ensures Contents() + [cur] == Inserted(old(Contents()), position, x)
    {
      ghost var before := vec[..finish];
      var it := position;
      cur := x;
      while it != finish
        invariant position <= it <= finish
        invariant forall k | 0 <= k < position || it <= k < finish :: vec[k] == before[k]
        invariant forall k | position < k < it :: vec[k] == before[k - 1]
        invariant if it == position then cur == x else vec[position] == x && cur == before[it - 1]
        decreases finish - it
      {
        var temp := vec[it];
        vec[it] := cur;
        cur := temp;
        it := it + 1;
      }
      IsInserted(before, vec[..finish], position, x, cur);
    }

    /** Shifts the tail down by one. The loop also copies the cell behind the last element, but into the last
        place, which is then given up; `read` is the highest index it reads. `vec_` has `capacity` elements, and the
        one cell more is there for this read, which leaves `vec_` exactly when the vector is full. */
    method Erase(position: nat) returns (r: nat, ghost read: int)
      requires Valid() && position <= finish
      modifies `finish, vec
      ensures Valid()
      ensures read == if position < old(finish) then old(finish) else -1
      ensures read >= capacity <==> position < old(finish) == capacity
      ensures position == old(finish) ==> Contents() == old(Contents()) && r == finish
      ensures position < old(finish) ==>
        Contents() == Without(old(Contents()), position, position + 1) && r == position
    {
      read := -1;
      if position == finish {
        return finish, -1;
      }
      ghost var before := vec[..finish + 1];
      var cur := position;
      while cur != finish
        invariant read == if cur > position then cur else -1
        invariant finish + 1 == |before| && position <= cur <= finish
        invariant forall k | position <= k < cur :: vec[k] == before[k + 1]
        invariant forall k | 0 <= k < position || cur <= k <= finish :: vec[k] == before[k]
        decreases finish - cur
      {
        vec[cur] := vec[cur + 1];
        read := cur + 1;
        cur := cur + 1;
      }
      PopBack();
      r := position;
    }

    method EraseRange(first0: nat, last0: nat) returns (r: nat)
      requires Valid() && first0 <= last0 <= finish
      modifies `finish, vec
      ensures Valid()
      ensures Contents() == Without(old(Contents()), first0, last0) && r == first0
    {
      if first0 == finish || first0 == last0 {
        return first0;
      }
      ghost var before := vec[..finish];
      var first, last := first0, last0;
      while last != finish
        invariant finish == |before| && last0 <= last <= finish && last - first == last0 - first0
        invariant forall k | first0 <= k < first :: vec[k] == before[k + (last0 - first0)]
        invariant forall k | 0 <= k < first0 || first <= k < finish :: vec[k] == before[k]
        decreases finish - last
      {
        vec[first] := vec[last];
        first := first + 1;
        last := last + 1;
      }
      IsWithout(before, vec[..first], first0, last0);
      finish := first;
      r := first0;
    }

    method Find(x: T) returns (r: nat)
      requires Valid()
      ensures r <= finish && x !in Contents()[..r]
      ensures r < finish ==> Contents()[r] == x
    {
      r := 0;
      while r != finish
        invariant r <= finish && x !in vec[..r]
        decreases finish - r
      {
        if vec[r] == x {
          return;
        }
        r := r + 1;
      }
    }
  }
}
