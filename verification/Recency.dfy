/** What it means for a list to hold what was sent most recently. */
module Recency {
  import opened Sequences

  /** Where x was sent last, or -1. */
  ghost function LastAt<T>(t: seq<T>, x: T): (i: int)
    ensures -1 <= i < |t| && (i >= 0 <==> x in t)
    ensures i >= 0 ==> t[i] == x
    ensures forall j :: i < j < |t| ==> t[j] != x
  {
    if t == [] then -1 else if Last(t) == x then |t| - 1 else LastAt(Init(t), x)
  }

  /** What else was sent since then. */
  ghost function Since<T>(t: seq<T>, x: T): set<T> {
    set j | LastAt(t, x) < j < |t| :: t[j]
  }

  ghost predicate Later<T>(t: seq<T>, x: T, y: T) { LastAt(t, x) > LastAt(t, y) }

  ghost predicate AllLater<T>(o: seq<T>, t: seq<T>, y: T) {
    forall i :: 0 <= i < |o| ==> Later(t, o[i], y)
  }

  /** The list holds x if it was sent, or is full of what was sent later. */
  ghost predicate HeldOrOutdone<T>(o: seq<T>, t: seq<T>, k: nat, x: T) {
    x in t && x !in o ==> |o| == k && AllLater(o, t, x)
  }

  ghost predicate Descending<T>(o: seq<T>, t: seq<T>) {
    && (forall i :: 0 <= i < |o| ==> o[i] in t)
    && (forall i, j :: 0 <= i < j < |o| ==> Later(t, o[i], o[j]))
  }

  /** The k sent most recently, the most recent first. */
  ghost predicate MostRecent<T(!new)>(o: seq<T>, t: seq<T>, k: nat) {
    |o| <= k && Descending(o, t) && forall x {:trigger HeldOrOutdone(o, t, k, x)} :: HeldOrOutdone(o, t, k, x)
  }

  lemma {:induction false} LastAtMore<T>(t: seq<T>, x: T, y: T)
    ensures LastAt(t + [x], y) == if x == y then |t| else LastAt(t, y)
  {
    assert Init(t + [x]) == t && Last(t + [x]) == x;
  }

  lemma {:induction false} NoneSent<T(!new)>(k: nat)
    ensures MostRecent<T>([], [], k)
  {
    forall x ensures HeldOrOutdone<T>([], [], k, x) {
    }
  }

  /** x is sent and stands in front of others that keep their order. */
  lemma {:induction false} FrontDescends<T>(o: seq<T>, t: seq<T>, x: T)
    requires Descending(o, t) && x !in o
    ensures Descending([x] + o, t + [x])
  {
    var o' := [x] + o;
    forall i, j | 0 <= i < j < |o'| ensures Later(t + [x], o'[i], o'[j]) {
      LastAtMore(t, x, o'[i]);
      LastAtMore(t, x, o'[j]);
      assert o'[j] == o[j - 1] && (i > 0 ==> Later(t, o[i - 1], o[j - 1]));
    }
  }

  /** So does what is not held stay behind what is. */
  lemma {:induction false} FrontOutdoes<T>(o: seq<T>, t: seq<T>, x: T, y: T)
    requires AllLater(o, t, y) && x !in o && y != x
    ensures AllLater([x] + o, t + [x], y)
  {
    var o' := [x] + o;
    LastAtMore(t, x, y);
    forall i | 0 <= i < |o'| ensures Later(t + [x], o'[i], y) {
      LastAtMore(t, x, o'[i]);
      assert i > 0 ==> Later(t, o[i - 1], y);
    }
  }

  /** One that is held is sent again. */
  lemma {:induction false} MoveToFront<T(!new)>(o: seq<T>, t: seq<T>, k: nat, i: nat)
    requires MostRecent(o, t, k) && i < |o|
    ensures MostRecent([o[i]] + (o[..i] + o[i + 1..]), t + [o[i]], k)
  {
    var x, rest := o[i], o[..i] + o[i + 1..];
    RestDescends(o, t, i);
    FrontDescends(rest, t, x);
    forall y ensures HeldOrOutdone([x] + rest, t + [x], k, y) {
      assert HeldOrOutdone(o, t, k, y);
      if y in o {
        var j :| 0 <= j < |o| && o[j] == y;
        assert j != i ==> rest[if j < i then j else j - 1] == y;
      } else if y in t {
        assert AllLater(rest, t, y);
        FrontOutdoes(rest, t, x, y);
      }
    }
  }

  lemma {:induction false} RestDescends<T>(o: seq<T>, t: seq<T>, i: nat)
    requires Descending(o, t) && i < |o|
    ensures var rest := o[..i] + o[i + 1..];
            Descending(rest, t) && o[i] !in rest && forall y :: y in rest ==> y in o
  {
    var rest := o[..i] + o[i + 1..];
    forall j | 0 <= j < |rest| ensures rest[j] in o && rest[j] != o[i] {
      assert rest[j] == o[if j < i then j else j + 1];
      if j < i { assert Later(t, o[j], o[i]); } else { assert Later(t, o[i], o[j + 1]); }
    }
    forall j, l | 0 <= j < l < |rest| ensures Later(t, rest[j], rest[l]) {
      assert Later(t, o[if j < i then j else j + 1], o[if l < i then l else l + 1]);
    }
  }

  /** One that is not held is sent; if the list is full, the one sent least recently gives way. */
  lemma {:induction false} EnterFront<T(!new)>(o: seq<T>, t: seq<T>, k: nat, x: T)
    requires MostRecent(o, t, k) && x !in o && k > 0
    ensures MostRecent([x] + if |o| < k then o else o[..|o| - 1], t + [x], k)
  {
    var rest := if |o| < k then o else o[..|o| - 1];
    assert Descending(rest, t) && x !in rest;
    FrontDescends(rest, t, x);
    forall y ensures HeldOrOutdone([x] + rest, t + [x], k, y) {
      assert HeldOrOutdone(o, t, k, y);
      if y in t && y != x && y !in rest {
        LastGivesWay(o, t, y);
        FrontOutdoes(rest, t, x, y);
      }
    }
  }

  lemma {:induction false} LastGivesWay<T>(o: seq<T>, t: seq<T>, y: T)
    requires Descending(o, t) && o != [] && y !in o[..|o| - 1] && (y in o || AllLater(o, t, y))
    ensures AllLater(o[..|o| - 1], t, y)
  {
    var rest := o[..|o| - 1];
    forall i | 0 <= i < |rest| && y in o ensures Later(t, rest[i], y) {
      assert rest[i] == o[i] && Later(t, o[i], o[|o| - 1]);
    }
  }

  /** Held is what was sent, with fewer than k others since. */
  lemma {:induction false} HeldIff<T(!new)>(o: seq<T>, t: seq<T>, k: nat, x: T)
    requires MostRecent(o, t, k)
    ensures x in o <==> x in t && |Since(t, x)| < k
  {
    if x in o {
      var i :| 0 <= i < |o| && o[i] == x;
      assert forall j :: i < j < |o| ==> Later(t, x, o[j]);
      forall y | y in Since(t, x) ensures y in o[..i] {
        assert Later(t, y, x);
        assert HeldOrOutdone(o, t, k, y);
        assert AllLater(o, t, y) ==> Later(t, o[i], y);
        var j :| 0 <= j < |o| && o[j] == y;
      }
      SubsetSize(Since(t, x), o[..i]);
    } else if x in t {
      assert HeldOrOutdone(o, t, k, x);
      forall i | 0 <= i < |o| ensures o[i] in Since(t, x) {
        assert Later(t, o[i], x) && t[LastAt(t, o[i])] == o[i];
      }
      forall i, j | 0 <= i < j < |o| ensures o[i] != o[j] {
        assert Later(t, o[i], o[j]);
      }
      SupersetSize(Since(t, x), o);
    }
  }

  lemma {:induction false} SubsetSize<T>(s: set<T>, o: seq<T>)
    requires forall y :: y in s ==> y in o
    ensures |s| <= |o|
    decreases |o|
  {
    if o == [] {
      assert s == {};
    } else {
      SubsetSize(s - {o[0]}, o[1..]);
    }
  }

  lemma {:induction false} SupersetSize<T>(s: set<T>, o: seq<T>)
    requires forall i :: 0 <= i < |o| ==> o[i] in s
    requires forall i, j :: 0 <= i < j < |o| ==> o[i] != o[j]
    ensures |s| >= |o|
    decreases |o|
  {
    if o != [] {
      SupersetSize(s - {o[0]}, o[1..]);
    }
  }
}
