/** Go slices with their backing arrays, and the taint and selector loops that delete from a
    slice while ranging over it. `append(s[:i], s[i+1:]...)` writes into the shared array. */
module GoSlices {
  import opened Objects
  import opened Taints

  /** A slice header. Every slice here starts at the beginning of its array. */
  datatype Slice<T> = Slice(data: array<T>, len: nat) {
    predicate Valid() {
      len <= data.Length
    }

    function Contents(): seq<T>
      requires Valid()
      reads data
    {
      data[..len]
    }
  }

  /** An array after element `i` of its first `len` has been deleted. */
  function Shifted<T>(b: seq<T>, i: nat, len: nat): seq<T>
    requires i < len <= |b|
  {
    b[..i] + b[i + 1..len] + b[len - 1..]
  }

  /** `append(s[:i], s[i+1:]...)`: shifts in place; the last old element stays in the array. */
  method DeleteAt<T>(s: Slice<T>, i: nat) returns (r: Slice<T>)
    requires s.Valid() && i < s.len
    modifies s.data
    ensures r == Slice(s.data, s.len - 1)
    ensures s.data[..] == Shifted(old(s.data[..]), i, s.len)
  {
    forall k | i <= k < s.len - 1 {
      s.data[k] := s.data[k + 1];
    }
    r := Slice(s.data, s.len - 1);
  }

  lemma {:induction false} ShiftedPrefix<T>(b: seq<T>, n: nat, i: nat, len: nat)
    requires i < len <= n <= |b|
    ensures Shifted(b, i, len)[..n] == Shifted(b[..n], i, len)
  {
    assert b[..n][..i] == b[..i] && b[..n][i + 1..len] == b[i + 1..len];
    assert b[len - 1..][..n - len + 1] == b[..n][len - 1..];
    var front := b[..i] + b[i + 1..len];
    assert |front| == len - 1;
    assert (front + b[len - 1..])[..n] == front + b[len - 1..][..n - len + 1];
  }

  /** The same, seen through a longer header of the same array. */
  method DeleteWithin<T>(s: Slice<T>, n: nat, i: nat) returns (r: Slice<T>)
    requires i < s.len <= n <= s.data.Length
    modifies s.data
    ensures r == Slice(s.data, s.len - 1)
    ensures s.data[..n] == Shifted(old(s.data[..n]), i, s.len)
  {
    ghost var all := s.data[..];
    ShiftedPrefix(all, n, i, s.len);
    assert all[..n] == s.data[..n];
    r := DeleteAt(s, i);
    assert s.data[..n] == s.data[..][..n];
  }

  /** `append(s, x)`: in place while there is capacity, otherwise in a new array. */
  method Append<T>(s: Slice<T>, x: T) returns (r: Slice<T>)
    requires s.Valid()
    modifies s.data
    ensures r.Valid() && (r.data == s.data || fresh(r.data))
    ensures r.Contents() == old(s.Contents()) + [x]
  {
    if s.len < s.data.Length {
      s.data[s.len] := x;
      r := Slice(s.data, s.len + 1);
    } else {
      var grown := new T[2 * s.len + 1](k reads s.data => if 0 <= k < s.data.Length then s.data[k] else x);
      r := Slice(grown, s.len + 1);
      assert grown[..s.len + 1] == old(s.data[..s.len]) + [x];
    }
  }

  method FromSeq<T>(s: seq<T>) returns (r: Slice<T>)
    ensures r.Valid() && fresh(r.data) && r.Contents() == s
  {
    var a := new T[|s|](k requires 0 <= k < |s| => s[k]);
    r := Slice(a, |s|);
  }

  /** No later taint has the key of taint `i`. */
  predicate LastOfKey(ts: seq<Taint>, i: nat)
    requires i < |ts|
  {
    forall j :: i < j < |ts| ==> ts[j].key != ts[i].key
  }

  /** `ExtractKeyValueFromTaint`: the last taint of a key gives its value. */
  method ExtractKeyValues(s: Slice<Taint>) returns (m: map<string, string>)
    requires s.Valid()
    ensures m.Keys == KeySet(s.Contents())
    ensures forall i :: 0 <= i < s.len && LastOfKey(s.Contents(), i) ==> m[s.data[i].key] == s.data[i].value
  {
    m := map[];
    for n := 0 to s.len
      invariant m.Keys == KeySet(s.data[..n])
      invariant forall i :: 0 <= i < n && LastOfKey(s.data[..n], i) ==> m[s.data[i].key] == s.data[i].value
    {
      ghost var before := m;
      ghost var shorter, longer := s.data[..n], s.data[..n + 1];
      m := m[s.data[n].key := s.data[n].value];
      assert longer == shorter + [s.data[n]];
      forall i | 0 <= i < n + 1 && LastOfKey(longer, i)
        ensures m[s.data[i].key] == s.data[i].value
      {
        if i < n {
          assert longer[n].key != longer[i].key;
          assert LastOfKey(shorter, i) by {
            assert forall j :: i < j < n ==> shorter[j] == longer[j];
          }
        }
      }
    }
    assert s.data[..s.len] == s.Contents();
  }

  /** `GetTaintKeyIndex`. */
  method GetTaintKeyIndex(s: Slice<Taint>, key: string) returns (i: int)
    requires s.Valid()
    ensures i == FirstIndex(s.Contents(), key)
  {
    i := 0;
    ghost var ts := s.Contents();
    while i < s.len
      invariant 0 <= i <= s.len
      invariant forall q :: 0 <= q < i ==> ts[q].key != key
    {
      if s.data[i].key == key {
        assert ts[i].key == key;
        var f := FirstIndex(ts, key);
        assert ts[i] in ts;
        return;
      }
      i := i + 1;
    }
    i := -1;
  }

  /** The status loop on values, step by step: `b` is the array up to the length at the start,
      `len` the length of the shortened list, `i` the position of the range. None is the slice
      bounds panic of `s[index+1:]`. */
  function RangeRun(b: seq<Taint>, len: nat, i: nat, key: string): Option<seq<Taint>>
    requires len <= |b| && i <= |b|
    decreases |b| - i
  {
    if i == |b| then Some(b[..len])
    else if b[i].key != key then RangeRun(b, len, i + 1, key)
    else if i + 1 > len then None
    else RangeRun(Shifted(b, i, len), len - 1, i + 1, key)
  }

  /** Once something has been deleted, copies of the last element lie behind the list. */
  ghost predicate StaleTail(b: seq<Taint>, len: nat, i: nat, last: Taint)
    requires len <= |b|
  {
    && (forall x :: len <= x < |b| ==> b[x] == last)
    && (i < len ==> b[len - 1] == last)
  }

  lemma ShiftedTail(b: seq<Taint>, len: nat, i: nat, last: Taint)
    requires i < len <= |b| && b[len - 1] == last && forall x :: len <= x < |b| ==> b[x] == last
    ensures StaleTail(Shifted(b, i, len), len - 1, i + 1, last)
  {
  }

  /** If the last element is a status taint, some later turn of the range trips over its copy. */
  lemma {:induction false} RunTrips(b: seq<Taint>, len: nat, i: nat, key: string, last: Taint)
    requires len < |b| && i < |b| && StaleTail(b, len, i, last) && last.key == key
    ensures RangeRun(b, len, i, key) == None
    decreases |b| - i
  {
    if i < len {
      if b[i].key != key {
        RunTrips(b, len, i + 1, key, last);
      } else {
        ShiftedTail(b, len, i, last);
        RunTrips(Shifted(b, i, len), len - 1, i + 1, key, last);
      }
    }
  }

  /** Otherwise the rest of the run is `Skipping`. */
  lemma {:induction false} RunSkips(b: seq<Taint>, len: nat, i: nat, key: string, last: Taint)
    requires len < |b| && i <= |b| && StaleTail(b, len, i, last) && last.key != key
    ensures RangeRun(b, len, i, key)
         == if i < len then Some(b[..i] + Skipping(b[i..len], key)) else Some(b[..len])
    decreases |b| - i
  {
    if i < len {
      if b[i].key != key {
        RunSkips(b, len, i + 1, key, last);
        SkippingKeeps(b, len, i, key);
      } else {
        var c := Shifted(b, i, len);
        ShiftedTail(b, len, i, last);
        RunSkips(c, len - 1, i + 1, key, last);
        SkippingDeletes(b, len, i, key);
      }
    } else if i < |b| {
      RunSkips(b, len, i + 1, key, last);
    }
  }

  lemma SkippingKeeps(b: seq<Taint>, len: nat, i: nat, key: string)
    requires i < len <= |b| && b[i].key != key
    ensures b[..i] + Skipping(b[i..len], key) == b[..i + 1] + Skipping(b[i + 1..len], key)
    ensures i + 1 == len ==> b[..i] + Skipping(b[i..len], key) == b[..len]
  {
    assert b[i..len][1..] == b[i + 1..len];
  }

  lemma SkippingDeletes(b: seq<Taint>, len: nat, i: nat, key: string)
    requires i < len <= |b| && b[i].key == key
    ensures b[..i] + Skipping(b[i..len], key)
         == if i + 1 < len - 1
            then Shifted(b, i, len)[..i + 1] + Skipping(Shifted(b, i, len)[i + 1..len - 1], key)
            else Shifted(b, i, len)[..len - 1]
  {
    var c := Shifted(b, i, len);
    if i + 1 < len {
      assert b[i..len][2..] == c[i + 1..len - 1];
      assert c[..i + 1] == b[..i] + [b[i + 1]];
      assert b[..i] + ([b[i + 1]] + Skipping(c[i + 1..len - 1], key)) == c[..i + 1] + Skipping(c[i + 1..len - 1], key);
    } else {
      assert |b[i..len]| == 1;
      assert c[..len - 1] == b[..i];
    }
  }

  /** The whole loop: it panics exactly on the overrunning lists and skips on the others. */
  lemma {:induction false} RunIs(ts: seq<Taint>, i: nat, key: string)
    requires i <= |ts| && forall x :: 0 <= x < i ==> ts[x].key != key
    ensures RangeRun(ts, |ts|, i, key)
         == if Overruns(ts, key) then None else Some(ts[..i] + Skipping(ts[i..], key))
    decreases |ts| - i
  {
    var n := |ts|;
    if i < n {
      assert ts[i..n] == ts[i..];
      if ts[i].key != key {
        RunIs(ts, i + 1, key);
        SkippingKeeps(ts, n, i, key);
        assert ts[i + 1..n] == ts[i + 1..];
      } else {
        var c := Shifted(ts, i, n);
        ShiftedTail(ts, n, i, ts[n - 1]);
        SkippingDeletes(ts, n, i, key);
        if i + 1 == n {
          assert !Overruns(ts, key);
        } else if ts[n - 1].key == key {
          RunTrips(c, n - 1, i + 1, key, ts[n - 1]);
        } else {
          RunSkips(c, n - 1, i + 1, key, ts[n - 1]);
        }
      }
    } else {
      assert ts[n..] == [] && ts[..n] + [] == ts[..n];
    }
  }

  lemma RunFromStart(ts: seq<Taint>, key: string)
    ensures RangeRun(ts, |ts|, 0, key) == if Overruns(ts, key) then None else Some(Skipping(ts, key))
  {
    RunIs(ts, 0, key);
    assert ts[..0] == [] && ts[0..] == ts && [] + Skipping(ts, key) == Skipping(ts, key);
  }

  /** The status loop of `removeNodeTaint`. It ranges over the header taken at the start, so it
      goes on reading the array after the list has become shorter. */
  method RangeLoop(s: Slice<Taint>, key: string) returns (crashed: bool, r: Slice<Taint>)
    requires s.Valid()
    modifies s.data
    ensures r.data == s.data && r.Valid()
    ensures RangeRun(old(s.Contents()), s.len, 0, key) == if crashed then None else Some(r.Contents())
  {
    var n := s.len;
    ghost var whole := RangeRun(s.data[..n], n, 0, key);
    r := s;
    crashed := false;
    for index := 0 to n
      invariant r.data == s.data && r.len <= n
      invariant RangeRun(s.data[..n], r.len, index, key) == whole
    {
      ghost var b := s.data[..n];
      assert b[index] == s.data[index];
      if s.data[index].key == key {
        if index + 1 > r.len {
          crashed := true;
          return;
        }
        ghost var len := r.len;
        r := DeleteWithin(r, n, index);
        assert s.data[..n] == Shifted(b, index, len);
      }
    }
    assert s.data[..n][..r.len] == r.Contents();
  }

  /** The loop panics exactly on the overrunning lists; on the others it leaves `Skipping`. */
  method RangeDelete(s: Slice<Taint>, key: string) returns (crashed: bool, r: Slice<Taint>)
    requires s.Valid()
    modifies s.data
    ensures crashed <==> Overruns(old(s.Contents()), key)
    ensures r.data == s.data && r.Valid()
    ensures !crashed ==> r.Contents() == Skipping(old(s.Contents()), key)
  {
    RunFromStart(s.Contents(), key);
    crashed, r := RangeLoop(s, key);
  }

  /** One machine-type removal of `removeNodeTaint`. */
  method DeleteFirst(s: Slice<Taint>, key: string) returns (r: Slice<Taint>)
    requires s.Valid()
    modifies s.data
    ensures r.data == s.data && r.Valid()
    ensures r.Contents() == DropFirst(old(s.Contents()), key)
  {
    var i := GetTaintKeyIndex(s, key);
    r := s;
    if i >= 0 {
      ghost var all := s.data[..];
      r := DeleteAt(s, i);
      assert r.Contents() == s.data[..][..r.len] == Shifted(all, i, s.len)[..r.len];
      assert r.Contents() == old(s.Contents())[..i] + old(s.Contents())[i + 1..];
    }
  }
}
