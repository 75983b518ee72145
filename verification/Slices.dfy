/**
 Go slices: windows on arrays that several slices may share. A variable that is appended to and truncated, as
 `storage/store/memory/util.go` does with the results and events of an endpoint, together with the views handed out.
 */
module Slices {
  import opened EventLog

  /** The capacity of a slice reaches to the end of its array. */
  datatype Slice<T> = Slice(a: array<T>, off: nat, len: nat) {
    function End(): nat {
      off + len
    }

    predicate Fits() {
      End() <= a.Length
    }

    function Contents(): seq<T>
      requires Fits()
      reads a
    {
      a[off..End()]
    }
  }

  class Variable<T> {
    var slice: Slice<T>

    /** The views handed out so far, and what each of them showed at that moment. */
    ghost var lent: map<Slice<T>, seq<T>>

    ghost var Repr: set<object>

    constructor (s: Slice<T>)
      requires s.Fits()
      ensures slice == s && lent == map[] && Valid() && Repr == {this, s.a}
    {
      slice, lent := s, map[];
      Repr := {this, s.a};
    }

    /**
     Every view still shows what it showed first, and lies before the end of the live slice if they share an array.
     */
    ghost predicate Valid()
      reads this, Repr
    {
      && this in Repr && slice.a in Repr && slice.Fits()
      && forall v | v in lent ::
           v.a in Repr && v.Fits() && v.Contents() == lent[v] && (v.a == slice.a ==> v.End() <= slice.End())
    }

    function Contents(): seq<T>
      requires slice.Fits()
      reads this, slice.a
    {
      slice.Contents()
    }

    /** append: in place while there is room, else in a new array with some spare room. */
    method Append(x: T, spare: nat)
      requires Valid()
      modifies this`slice, this`Repr, slice.a
      ensures Valid() && fresh(Repr - old(Repr)) && old(Repr) <= Repr
      ensures Contents() == old(Contents()) + [x]
      ensures lent == old(lent)
    {
      if slice.End() < slice.a.Length {
        slice.a[slice.End()] := x;
        slice := slice.(len := slice.len + 1);
      } else {
        var was := slice.Contents();
        var b := new T[|was| + 1 + spare](i => if 0 <= i < |was| then was[i] else x);
        slice, Repr := Slice(b, 0, |was| + 1), Repr + {b};
      }
    }

    /** v = v[len(v)-n:] when there are more than n. */
    method KeepLast(n: nat)
      requires Valid()
      modifies this`slice
      ensures Valid()
      ensures Contents() == LastN(old(Contents()), n)
      ensures lent == old(lent)
    {
      if slice.len > n {
        slice := Slice(slice.a, slice.End() - n, n);
      }
    }

    /** v[start:end], which shares the array. */
    method View(start: nat, end: nat) returns (v: Slice<T>)
      requires Valid() && start <= end <= slice.len
      modifies this`lent
      ensures Valid()
      ensures v.a == slice.a && v.Fits() && v.Contents() == Contents()[start..end]
      ensures lent == old(lent)[v := v.Contents()]
      ensures forall w | w in old(lent) :: lent[w] == old(lent)[w]
    {
      v := Slice(slice.a, slice.off + start, end - start);
      forall i | 0 <= i < end - start ensures v.Contents()[i] == Contents()[start..end][i] {
        assert Contents()[start..end][i] == Contents()[start + i] == slice.a[slice.off + (start + i)];
      }
      assert v.Contents() == Contents()[start..end];
      lent := lent[v := v.Contents()];
    }
  }
}
