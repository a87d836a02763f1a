/**
 * What the ORM's queries mean over a table kept as a sequence of rows in
 * insertion order: `filter_by(...).first()` is `FirstIndex`,
 * `filter_by(...).all()` is `Where`, and `order_by(created_at.desc())` is
 * `NewestFirst`. Row ids are issued by an increasing counter, so insertion
 * order, id order and creation-time order agree.
 */
module Query {
  import opened Wrappers

  /** The position of the first row satisfying `p`, if any. */
  function FirstIndex<T>(s: seq<T>, p: T -> bool): (r: Option<nat>)
    ensures r.Some? ==> r.value < |s| && p(s[r.value])
    ensures r.Some? ==> forall j :: 0 <= j < r.value ==> !p(s[j])
    ensures r.None? <==> forall j :: 0 <= j < |s| ==> !p(s[j])
    decreases |s|
  {
    if s == [] then None
    else if p(s[0]) then Some(0)
    else
      match FirstIndex(s[1..], p)
      case None => None
      case Some(k) => Some(k + 1)
  }

  /** The rows satisfying `p`, in storage order. */
  function Where<T(!new)>(s: seq<T>, p: T -> bool): (r: seq<T>)
    ensures |r| <= |s|
    ensures forall x :: x in r <==> x in s && p(x)
    decreases |s|
  {
    if s == [] then []
    else
      var init := s[..|s| - 1];
      assert s == init + [s[|s| - 1]];
      Where(init, p) + (if p(s[|s| - 1]) then [s[|s| - 1]] else [])
  }

  function Reverse<T>(s: seq<T>): (r: seq<T>)
    ensures |r| == |s|
    ensures forall i :: 0 <= i < |s| ==> r[i] == s[|s| - 1 - i]
  {
    seq(|s|, i requires 0 <= i < |s| => s[|s| - 1 - i])
  }

  /** At most the first `n` rows (the ORM's `limit(n)`). */
  function Take<T>(s: seq<T>, n: nat): (r: seq<T>)
    ensures |r| == if |s| <= n then |s| else n
    ensures r == s[..|r|]
  {
    if |s| <= n then s else s[..n]
  }

  /**
   * The key of the row at position `i`. The ordering predicates below are
   * phrased with it so that the solver only instantiates them where a proof
   * names a position.
   */
  ghost function KeyAt<T>(s: seq<T>, key: T -> int, i: int): int
    requires 0 <= i < |s|
  {
    key(s[i])
  }

  /** Row keys strictly increase along the table. */
  ghost predicate Ascending<T>(s: seq<T>, key: T -> int)
  {
    forall i, j :: 0 <= i < j < |s| ==> KeyAt(s, key, i) < KeyAt(s, key, j)
  }

  /** Row keys strictly decrease along the list. */
  ghost predicate Descending<T>(s: seq<T>, key: T -> int)
  {
    forall i, j :: 0 <= i < j < |s| ==> KeyAt(s, key, i) > KeyAt(s, key, j)
  }

  /**
   * An autoincrement table: ids increase in storage order, are positive and
   * lie below the counter that issues the next one.
   */
  ghost predicate Keyed<T>(s: seq<T>, key: T -> int, next: int)
  {
    1 <= next && Ascending(s, key) && forall i :: 0 <= i < |s| ==> 1 <= KeyAt(s, key, i) < next
  }

  /** Reversal keeps the same rows. */
  lemma ReverseContents<T>(s: seq<T>)
    ensures forall x :: x in Reverse(s) <==> x in s
  {
    var r := Reverse(s);
    forall x | x in s ensures x in r {
      var i :| 0 <= i < |s| && s[i] == x;
      assert r[|s| - 1 - i] == x;
    }
  }

  /** The rows satisfying `p`, newest first (`order_by(created_at.desc())`). */
  function NewestFirst<T(!new)>(s: seq<T>, p: T -> bool): (r: seq<T>)
    ensures |r| <= |s|
    ensures forall x :: x in r <==> x in s && p(x)
  {
    var w := Where(s, p);
    ReverseContents(w);
    Reverse(w)
  }

  /** Filtering keeps the relative order of the rows it keeps. */
  lemma {:induction false} WhereAscending<T(!new)>(s: seq<T>, p: T -> bool, key: T -> int)
    requires Ascending(s, key)
    ensures Ascending(Where(s, p), key)
    decreases |s|
  {
    if s != [] {
      var init, last := s[..|s| - 1], s[|s| - 1];
      forall i, j | 0 <= i < j < |init| ensures KeyAt(init, key, i) < KeyAt(init, key, j) {
        assert KeyAt(s, key, i) < KeyAt(s, key, j);
      }
      WhereAscending(init, p, key);
      var w := Where(init, p);
      if p(last) {
        var r := w + [last];
        assert Where(s, p) == r;
        forall i, j | 0 <= i < j < |r| ensures KeyAt(r, key, i) < KeyAt(r, key, j) {
          if j < |w| {
            assert KeyAt(w, key, i) < KeyAt(w, key, j);
          } else {
            assert r[i] in init;
            var k :| 0 <= k < |init| && init[k] == r[i];
            assert KeyAt(s, key, k) < KeyAt(s, key, |s| - 1);
          }
        }
      } else {
        assert Where(s, p) == w;
      }
    }
  }

  /** In a table with ascending ids, `NewestFirst` lists the matching rows with descending ids. */
  lemma NewestFirstDescending<T(!new)>(s: seq<T>, p: T -> bool, key: T -> int)
    ensures Ascending(s, key) ==> Descending(NewestFirst(s, p), key)
  {
    if Ascending(s, key) {
      var w := Where(s, p);
      WhereAscending(s, p, key);
      var r := Reverse(w);
      forall i, j | 0 <= i < j < |r| ensures KeyAt(r, key, i) > KeyAt(r, key, j) {
        assert KeyAt(w, key, |w| - 1 - j) < KeyAt(w, key, |w| - 1 - i);
      }
    }
  }

  /** Removing rows from an autoincrement table keeps it one. */
  lemma WhereKeyed<T(!new)>(s: seq<T>, p: T -> bool, key: T -> int, next: int)
    requires Keyed(s, key, next)
    ensures Keyed(Where(s, p), key, next)
  {
    WhereAscending(s, p, key);
    var w := Where(s, p);
    forall i | 0 <= i < |w| ensures 1 <= KeyAt(w, key, i) < next {
      assert w[i] in s;
      var k :| 0 <= k < |s| && s[k] == w[i];
      assert 1 <= KeyAt(s, key, k) < next;
    }
  }

  /** Inserting a row with the counter's id, then bumping the counter, keeps an autoincrement table. */
  lemma AppendKeyed<T>(s: seq<T>, x: T, key: T -> int, next: int)
    requires Keyed(s, key, next) && key(x) == next
    ensures Keyed(s + [x], key, next + 1)
  {
    var r := s + [x];
    forall i, j | 0 <= i < j < |r| ensures KeyAt(r, key, i) < KeyAt(r, key, j) {
      if j < |s| {
        assert KeyAt(s, key, i) < KeyAt(s, key, j);
      } else {
        assert 1 <= KeyAt(s, key, i) < next;
      }
    }
    forall i | 0 <= i < |r| ensures 1 <= KeyAt(r, key, i) < next + 1 {
      if i < |s| {
        assert 1 <= KeyAt(s, key, i) < next;
      }
    }
  }

  /** Removing the row at `i` from an autoincrement table keeps it one. */
  lemma RemoveKeyed<T>(s: seq<T>, i: nat, key: T -> int, next: int)
    requires Keyed(s, key, next) && i < |s|
    ensures Keyed(s[..i] + s[i + 1..], key, next)
  {
    var r := s[..i] + s[i + 1..];
    forall a, b | 0 <= a < b < |r| ensures KeyAt(r, key, a) < KeyAt(r, key, b) {
      var a', b' := if a < i then a else a + 1, if b < i then b else b + 1;
      assert r[a] == s[a'] && r[b] == s[b'];
      assert KeyAt(s, key, a') < KeyAt(s, key, b');
    }
    forall a | 0 <= a < |r| ensures 1 <= KeyAt(r, key, a) < next {
      var a' := if a < i then a else a + 1;
      assert r[a] == s[a'];
      assert 1 <= KeyAt(s, key, a') < next;
    }
  }

  /** Removing the row at `i` from a table of distinct rows drops exactly that row. */
  lemma RemoveAtContents<T>(s: seq<T>, i: nat, key: T -> int)
    requires Ascending(s, key) && i < |s|
    ensures forall x :: x in s[..i] + s[i + 1..] <==> x in s && x != s[i]
  {
    var r := s[..i] + s[i + 1..];
    assert forall j :: 0 <= j < |r| ==> r[j] == (if j < i then s[j] else s[j + 1]);
    forall x | x in s && x != s[i] ensures x in r {
      var j :| 0 <= j < |s| && s[j] == x;
      if j < i { assert r[j] == x; } else { assert r[j - 1] == x; }
    }
    forall x | x in r ensures x != s[i] {
      var j :| 0 <= j < |r| && r[j] == x;
      if j < i {
        assert KeyAt(s, key, j) < KeyAt(s, key, i);
      } else {
        assert KeyAt(s, key, i) < KeyAt(s, key, j + 1);
      }
    }
  }

  /** In an ascending table at most one row carries a given key. */
  lemma KeyedUnique<T>(s: seq<T>, key: T -> int, i: nat, j: nat)
    requires Ascending(s, key) && i < |s| && j < |s| && key(s[i]) == key(s[j])
    ensures i == j
  {
    assert i < j ==> KeyAt(s, key, i) < KeyAt(s, key, j);
    assert j < i ==> KeyAt(s, key, j) < KeyAt(s, key, i);
  }
}
