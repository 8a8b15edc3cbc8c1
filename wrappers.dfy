/** Small building blocks shared by every module of the model: the
    optional value that stands for a nullable pointer, and the list
    operations of GLib (g_list_remove, g_list_index, ...) stated on
    sequences. */
module Wrappers {

  /** A nullable pointer: None is NULL. */
  datatype Option<T> = None | Some(value: T)

  /** Lookup of a key that may be missing (g_object_get_data returning NULL). */
  function Lookup<K, V>(m: map<K, V>, k: K): (r: Option<V>)
    ensures r.Some? <==> k in m
    ensures r.Some? ==> r.value == m[k]
  {
    if k in m then Some(m[k]) else None
  }

  /** A directory listing that could not be read counts as empty. */
  function OrEmpty<T>(o: Option<seq<T>>): seq<T>
  {
    if o.Some? then o.value else []
  }

  /** Every element occurs at most once. */
  predicate NoDup<T(==)>(s: seq<T>)
  {
    forall i, j :: 0 <= i < j < |s| ==> s[i] != s[j]
  }

  /** Position of the first occurrence of x, or -1 (g_list_index). */
  function IndexOf<T(==)>(s: seq<T>, x: T): (r: int)
    ensures -1 <= r < |s|
    ensures r == -1 <==> x !in s
    ensures r >= 0 ==> s[r] == x && x !in s[..r]
  {
    if s == [] then -1
    else if s[0] == x then 0
    else
      var k := IndexOf(s[1..], x);
      assert s[1..][..if k < 0 then 0 else k] == s[1..1 + (if k < 0 then 0 else k)];
      if k < 0 then -1 else k + 1
  }

  /** g_list_remove / g_slist_remove: drop the FIRST element equal to x;
      a list without x is returned as it is. */
  function RemoveFirst<T(==)>(s: seq<T>, x: T): (r: seq<T>)
  {
    if s == [] then []
    else if s[0] == x then s[1..]
    else [s[0]] + RemoveFirst(s[1..], x)
  }

  /** RemoveFirst cuts out exactly the first occurrence and keeps the
      order of everything else. */
  lemma {:induction false} RemoveFirstSplit<T>(s: seq<T>, x: T)
    ensures x !in s ==> RemoveFirst(s, x) == s
    ensures x in s ==> RemoveFirst(s, x) == s[..IndexOf(s, x)] + s[IndexOf(s, x) + 1..]
  {
    if s == [] {
    } else if s[0] == x {
      assert s[..0] + s[1..] == s[1..];
    } else {
      RemoveFirstSplit(s[1..], x);
      if x in s {
        RemoveFirstShift(s, x);
      } else {
        assert [s[0]] + s[1..] == s;
      }
    }
  }

  /** The induction step of RemoveFirstSplit when the head is kept: the
      cut in the tail, one place further on, is the cut in the list. */
  lemma RemoveFirstShift<T>(s: seq<T>, x: T)
    requires s != [] && s[0] != x && x in s[1..]
    requires RemoveFirst(s[1..], x) == s[1..][..IndexOf(s[1..], x)] + s[1..][IndexOf(s[1..], x) + 1..]
    ensures RemoveFirst(s, x) == s[..IndexOf(s, x)] + s[IndexOf(s, x) + 1..]
  {
    var t := s[1..];
    var k := IndexOf(t, x);
    assert IndexOf(s, x) == k + 1;
    var r, u := [s[0]] + RemoveFirst(t, x), s[..k + 1] + s[k + 2..];
    assert |r| == |u|;
    forall i | 0 <= i < |r| ensures r[i] == u[i] {
      if 0 < i <= k {
        assert r[i] == t[i - 1];
      } else if i > k {
        assert r[i] == t[i];
      }
    }
  }

  /** Removing from a list without duplicates removes the element
      altogether, keeps the list duplicate-free and shortens it by one. */
  lemma RemoveFirstNoDup<T>(s: seq<T>, x: T)
    requires NoDup(s)
    ensures x !in RemoveFirst(s, x)
    ensures NoDup(RemoveFirst(s, x))
    ensures forall y :: y != x ==> (y in RemoveFirst(s, x) <==> y in s)
    ensures |RemoveFirst(s, x)| == if x in s then |s| - 1 else |s|
  {
    RemoveFirstSplit(s, x);
    if x in s {
      var k := IndexOf(s, x);
      var r := s[..k] + s[k + 1..];
      CutIndices(s, k);
      forall y | y in r ensures y != x {
        var j :| 0 <= j < |r| && r[j] == y;
        if j < k { assert r[j] == s[j]; } else { assert r[j] == s[j + 1]; }
      }
      forall i, j | 0 <= i < j < |r| ensures r[i] != r[j] {
        var i' := if i < k then i else i + 1;
        var j' := if j < k then j else j + 1;
        assert r[i] == s[i'] && r[j] == s[j'];
      }
      forall y | y != x && y in s ensures y in r {
        var j :| 0 <= j < |s| && s[j] == y;
        var j' := if j < k then j else j - 1;
        assert r[j'] == y;
      }
    }
  }

  /** Cutting out position k shifts everything after it down by one. */
  lemma CutIndices<T>(s: seq<T>, k: nat)
    requires k < |s|
    ensures var r := s[..k] + s[k + 1..];
            |r| == |s| - 1
            && (forall j :: 0 <= j < k ==> r[j] == s[j])
            && (forall j :: k <= j < |r| ==> r[j] == s[j + 1])
  {
  }

  /** Number of occurrences of x in s. */
  function Count<T(==)>(s: seq<T>, x: T): nat
  {
    if s == [] then 0 else (if s[0] == x then 1 else 0) + Count(s[1..], x)
  }

  lemma {:induction false} CountAppend<T>(a: seq<T>, b: seq<T>, x: T)
    ensures Count(a + b, x) == Count(a, x) + Count(b, x)
  {
    if a != [] {
      assert (a + b)[1..] == a[1..] + b;
      CountAppend(a[1..], b, x);
    } else {
      assert a + b == b;
    }
  }

  /** g_list_reverse. */
  function Reverse<T>(s: seq<T>): (r: seq<T>)
    ensures |r| == |s|
    ensures forall i :: 0 <= i < |s| ==> r[i] == s[|s| - 1 - i]
  {
    if s == [] then [] else Reverse(s[1..]) + [s[0]]
  }

  /** Prepending to a list that is reversed later keeps the input order:
      reversing after an append puts the new element in front. */
  lemma ReverseSnoc<T>(s: seq<T>, x: T)
    ensures Reverse(s + [x]) == [x] + Reverse(s)
  {
    var a, b := Reverse(s + [x]), [x] + Reverse(s);
    assert |a| == |b|;
    forall i | 0 <= i < |a| ensures a[i] == b[i] {
      if i > 0 {
        assert (s + [x])[|s| - i] == s[|s| - 1 - (i - 1)];
      }
    }
  }

  /** Reversing twice gives the list back. */
  lemma ReverseReverse<T>(s: seq<T>)
    ensures Reverse(Reverse(s)) == s
  {
    var r := Reverse(Reverse(s));
    assert |r| == |s|;
    forall i | 0 <= i < |s| ensures r[i] == s[i] {
    }
  }

  /** Reversing a concatenation reverses the order of the parts. */
  lemma ReverseAppend<T>(a: seq<T>, b: seq<T>)
    ensures Reverse(a + b) == Reverse(b) + Reverse(a)
  {
    var r, t := Reverse(a + b), Reverse(b) + Reverse(a);
    assert |r| == |t|;
    forall i | 0 <= i < |r| ensures r[i] == t[i] {
      if i < |b| {
        assert r[i] == (a + b)[|a| + |b| - 1 - i] == b[|b| - 1 - i];
      } else {
        assert r[i] == (a + b)[|a| + |b| - 1 - i] == a[|a| - 1 - (i - |b|)];
      }
    }
  }

  /** Reversing a list built by prepending the elements of `a` one by one
      onto `b` gives the reversed `b` followed by `a` in order. */
  lemma ReverseOfPrepended<T>(a: seq<T>, b: seq<T>)
    ensures Reverse(Reverse(a) + b) == Reverse(b) + a
  {
    ReverseAppend(Reverse(a), b);
    ReverseReverse(a);
  }
}
