/** Slices over shared backing arrays, and what touching a bucket does to them (dht/netdb.go:167-199). */
module Slices {
  import opened Recency

  /** A slice of a backing array, starting at its first element. */
  datatype Slice<T> = Slice(data: array<T>, len: nat)

  /** What is left in a backing array when `a` has been cut out of it in place. */
  function Shifted<T(==)>(b: seq<T>, a: T): (r: seq<T>)
    ensures |r| == |b|
  {
    if a in b then Remove(b, a) + [b[|b| - 1]] else b
  }

  method Search<T(==)>(s: Slice<T>, addr: T) returns (found: int)
    requires s.len <= s.data.Length
    ensures found == if addr in s.data[..s.len] then Find(s.data[..s.len], addr) else -1
  {
    ghost var b := s.data[..s.len];
    for n := 0 to s.len
      invariant forall j :: 0 <= j < n ==> b[j] != addr
    {
      if s.data[n] == addr {
        FindUnique(b, addr, n);
        return n;
      }
    }
    return -1;
  }

  /** append(b[:found], b[found+1:]...): the elements after `found` move down by one within the same array. */
  method ShiftDown<T>(s: Slice<T>, found: nat)
    requires found < s.len <= s.data.Length
    modifies s.data
    ensures s.data[..s.len - 1] == old(s.data[..found] + s.data[found + 1..s.len])
    ensures s.data[s.len - 1] == old(s.data[s.len - 1])
  {
    for j := found to s.len - 1
      invariant forall i :: 0 <= i < found ==> s.data[i] == old(s.data[i])
      invariant forall i :: found <= i < j ==> s.data[i] == old(s.data[i + 1])
      invariant forall i :: j <= i < s.len ==> s.data[i] == old(s.data[i])
    {
      s.data[j] := s.data[j + 1];
    }
  }

  /** append([]Address{addr}, b...): a fresh array. */
  method Prepend<T>(addr: T, s: Slice<T>) returns (r: Slice<T>)
    requires s.len <= s.data.Length
    ensures fresh(r.data) && r.len == r.data.Length && r.data[..r.len] == [addr] + s.data[..s.len]
  {
    var rest := s.data[..s.len];
    var data := new T[s.len + 1](i requires 0 <= i <= |rest| => if i == 0 then addr else rest[i - 1]);
    r := Slice(data, s.len + 1);
  }

  /** The bucket without `addr`, or without its tail when it is full: the first in place, the second by reslicing. */
  method MakeRoom<T(==)>(bound: nat, s: Slice<T>, addr: T) returns (r: Slice<T>)
    requires bound > 0 && s.len <= s.data.Length
    modifies s.data
    ensures r.data == s.data && r.len <= r.data.Length
    ensures [addr] + r.data[..r.len] == Touch(bound, old(s.data[..s.len]), addr)
    ensures s.data[..s.len] == Shifted(old(s.data[..s.len]), addr)
  {
    ghost var b := s.data[..s.len];
    var found := Search(s, addr);
    if found != -1 {
      ShiftDown(s, found);
      r := Slice(s.data, s.len - 1);
      assert b[found + 1..] == old(s.data[found + 1..s.len]);
      assert r.data[..r.len] == Remove(b, addr);
      assert s.data[..s.len] == s.data[..s.len - 1] + [b[s.len - 1]];
    } else if s.len == bound {
      r := Slice(s.data, s.len - 1);
      assert r.data[..r.len] == b[..bound - 1];
    } else {
      r := s;
    }
  }

  /** The new bucket for `addr`, in a fresh array; the array of the old one is shifted in place when it held `addr`. */
  method TouchSlice<T(==)>(bound: nat, s: Slice<T>, addr: T) returns (r: Slice<T>)
    requires bound > 0 && s.len <= s.data.Length
    modifies s.data
    ensures fresh(r.data) && r.len <= r.data.Length
    ensures r.data[..r.len] == Touch(bound, old(s.data[..s.len]), addr)
    ensures s.data[..s.len] == Shifted(old(s.data[..s.len]), addr)
  {
    var rest := MakeRoom(bound, s, addr);
    r := Prepend(addr, rest);
  }
}
