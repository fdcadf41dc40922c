/** Sequences of tree nodes: rewriting, splicing and ordered insertion. */
module IntervalLists {

  ghost predicate NoDup<T>(s: seq<T>) {
    forall i, j :: 0 <= i < j < |s| ==> s[i] != s[j]
  }

  /** Replaces every element that has an entry in m by the sequence given there. */
  ghost function Subst<T>(s: seq<T>, m: map<T, seq<T>>): seq<T> {
    if s == [] then []
    else (if s[0] in m then m[s[0]] else [s[0]]) + Subst(s[1..], m)
  }

  lemma Associates<T>(a: seq<T>, b: seq<T>, c: seq<T>)
    ensures a + (b + c) == a + b + c
  {
  }

  lemma {:induction false} SubstConcat<T>(a: seq<T>, b: seq<T>, m: map<T, seq<T>>)
    ensures Subst(a + b, m) == Subst(a, m) + Subst(b, m)
  {
    if a == [] {
      assert a + b == b;
    } else {
      SubstConcat(a[1..], b, m);
      assert (a + b)[0] == a[0] && (a + b)[1..] == a[1..] + b;
      Associates(if a[0] in m then m[a[0]] else [a[0]], Subst(a[1..], m), Subst(b, m));
    }
  }

  lemma {:induction false} SubstUntouched<T>(s: seq<T>, m: map<T, seq<T>>)
    requires forall e :: e in s ==> e !in m
    ensures Subst(s, m) == s
  {
    if s != [] {
      assert s[0] in s;
      assert forall e :: e in s[1..] ==> e in s;
      SubstUntouched(s[1..], m);
    }
  }

  lemma SubstNode<T>(l: seq<T>, n: T, r: seq<T>, m: map<T, seq<T>>)
    ensures Subst(l + [n] + r, m) == Subst(l, m) + (if n in m then m[n] else [n]) + Subst(r, m)
  {
    SubstConcat(l + [n], r, m);
    SubstConcat(l, [n], m);
    assert Subst([n], m) == (if n in m then m[n] else [n]) + Subst([n][1..], m);
  }

  lemma NoDupAppend<T>(a: seq<T>, b: seq<T>)
    requires NoDup(a + b)
    ensures NoDup(a) && NoDup(b)
    ensures forall e :: e in a ==> e !in b
  {
    var s := a + b;
    forall i, j | 0 <= i < j < |a| ensures a[i] != a[j] { assert s[i] != s[j]; }
    forall i, j | 0 <= i < j < |b| ensures b[i] != b[j] { assert s[|a| + i] != s[|a| + j]; }
    forall i, j | 0 <= i < |a| && 0 <= j < |b| ensures a[i] != b[j] { assert s[i] != s[|a| + j]; }
  }

  lemma NoDupJoin<T>(a: seq<T>, b: seq<T>)
    requires NoDup(a) && NoDup(b)
    requires forall e :: e in a ==> e !in b
    ensures NoDup(a + b)
  {
    var s := a + b;
    forall i, j | 0 <= i < j < |s| ensures s[i] != s[j] {
      if i < |a| <= j {
        assert s[i] in a && s[j] in b;
      }
    }
  }

  /** s without its occurrences of e. */
  ghost function Without<T>(s: seq<T>, e: T): seq<T> {
    Subst(s, map[e := []])
  }

  lemma WithoutCut<T>(a: seq<T>, e: T, b: seq<T>)
    requires e !in a && e !in b
    ensures Without(a + [e] + b, e) == a + b
  {
    var m: map<T, seq<T>> := map[e := []];
    SubstNode(a, e, b, m);
    SubstUntouched(a, m);
    SubstUntouched(b, m);
    assert a + [] == a;
  }

  /** What follows x in e is y, if they follow each other in a slice of e. */
  lemma NextInSlice<T>(e: seq<T>, a: seq<T>, slice: seq<T>, b: seq<T>, before: seq<T>, x: T, y: T, behind: seq<T>)
    requires NoDup(e) && e == a + slice + b && slice == before + [x] + [y] + behind
    ensures forall i {:trigger e[i]} :: 0 <= i < |e| && e[i] == x ==> i + 1 < |e| && e[i + 1] == y
  {
    var k := |a| + |before|;
    assert e[k] == slice[|before|] == x && e[k + 1] == slice[|before| + 1] == y;
  }

  lemma LastInSlice<T>(e: seq<T>, before: seq<T>, x: T)
    requires NoDup(e) && e == before + [x]
    ensures forall i {:trigger e[i]} :: 0 <= i < |e| && e[i] == x ==> i + 1 == |e|
  {
    assert e[|before|] == x;
  }

  lemma {:induction false} SetOfList<T>(s: seq<T>)
    requires NoDup(s)
    ensures |set e | e in s| == |s|
  {
    if s == [] {
      assert (set e | e in s) == {};
    } else {
      var t := s[1..];
      SetOfList(t);
      assert s[0] !in t;
      assert (set e | e in s) == (set e | e in t) + {s[0]};
    }
  }
}
