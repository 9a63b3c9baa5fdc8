/**
 * Page layout blocks and their reading order: the stable sort of one page's
 * blocks on the key `(y0, x0)`.
 */
module Layout {

  /** One entry of a page's block list, `(x0, y0, x1, y1, text, block_no,
      block_type)`; `block_type` is 0 for text and 1 for an image. */
  datatype Block = Block(x0: real, y0: real, x1: real, y1: real, text: string, blockNo: int, blockType: int)

  /** The sort key `(y0, x0)` compared as a Python tuple: lexicographically. */
  predicate KeyLe(a: Block, b: Block) {
    a.y0 < b.y0 || (a.y0 == b.y0 && a.x0 <= b.x0)
  }

  predicate SameKey(a: Block, b: Block) {
    a.y0 == b.y0 && a.x0 == b.x0
  }

  predicate Sorted(s: seq<Block>) {
    forall i, j :: 0 <= i < j < |s| ==> KeyLe(s[i], s[j])
  }

  /** The blocks of `s` whose key equals the key of `k`, in their order in `s`. */
  function KeyClass(s: seq<Block>, k: Block): seq<Block> {
    if s == [] then []
    else (if SameKey(s[0], k) then [s[0]] else []) + KeyClass(s[1..], k)
  }

  /** Places `b` before the first block whose key is not below its own, so
      that `b` stays ahead of every block with an equal key. */
  function Insert(b: Block, s: seq<Block>): seq<Block> {
    if s == [] || KeyLe(b, s[0]) then [b] + s else [s[0]] + Insert(b, s[1..])
  }

  lemma {:induction false} InsertMultiset(b: Block, s: seq<Block>)
    ensures multiset(Insert(b, s)) == multiset(s) + multiset{b}
  {
    if s != [] && !KeyLe(b, s[0]) {
      InsertMultiset(b, s[1..]);
      assert s == [s[0]] + s[1..];
    }
  }

  lemma InsertMember(b: Block, s: seq<Block>, x: Block)
    ensures x in Insert(b, s) <==> x == b || x in s
  {
    InsertMultiset(b, s);
    assert x in Insert(b, s) <==> x in multiset(Insert(b, s));
  }

  lemma {:induction false} InsertSorted(b: Block, s: seq<Block>)
    requires Sorted(s)
    ensures Sorted(Insert(b, s))
  {
    if s != [] && !KeyLe(b, s[0]) {
      var t := Insert(b, s[1..]);
      InsertSorted(b, s[1..]);
      forall x | x in t ensures KeyLe(s[0], x) {
        InsertMember(b, s[1..], x);
        if x != b {
          var i :| 0 <= i < |s[1..]| && s[1..][i] == x;
          assert s[i + 1] == x;
        }
      }
      var r := [s[0]] + t;
      forall i, j | 0 <= i < j < |r| ensures KeyLe(r[i], r[j]) {
        if i == 0 { assert r[j] in t; } else { assert r[i] == t[i - 1] && r[j] == t[j - 1]; }
      }
    }
  }

  /** The page's blocks in reading order: a stable sort on `(y0, x0)`, as
      `list.sort(key=...)` performs it. */
  function SortByKey(s: seq<Block>): seq<Block> {
    if s == [] then [] else Insert(s[0], SortByKey(s[1..]))
  }

  /** The sorted sequence is in key order and holds the same blocks. */
  lemma {:induction false} SortByKeySpec(s: seq<Block>)
    ensures Sorted(SortByKey(s)) && multiset(SortByKey(s)) == multiset(s)
  {
    if s != [] {
      SortByKeySpec(s[1..]);
      InsertSorted(s[0], SortByKey(s[1..]));
      InsertMultiset(s[0], SortByKey(s[1..]));
      assert s == [s[0]] + s[1..];
    }
  }

  /** A block of `s` with the key of `k` is in `KeyClass(s, k)`, and nothing else is. */
  lemma {:induction false} KeyClassMember(s: seq<Block>, k: Block, x: Block)
    ensures x in KeyClass(s, k) <==> x in s && SameKey(x, k)
  {
    if s != [] {
      KeyClassMember(s[1..], k, x);
      assert s == [s[0]] + s[1..];
    }
  }

  lemma {:induction false} KeyClassAppend(a: seq<Block>, b: seq<Block>, k: Block)
    ensures KeyClass(a + b, k) == KeyClass(a, k) + KeyClass(b, k)
  {
    if a == [] {
      assert a + b == b;
    } else {
      assert (a + b)[1..] == a[1..] + b;
      KeyClassAppend(a[1..], b, k);
      assert (a + b)[0] == a[0];
    }
  }

  lemma KeyClassSameKey(s: seq<Block>, k: Block, k': Block)
    requires SameKey(k, k')
    ensures KeyClass(s, k) == KeyClass(s, k')
  {
  }

  lemma {:induction false} InsertKeyClass(b: Block, s: seq<Block>, k: Block)
    ensures KeyClass(Insert(b, s), k) == (if SameKey(b, k) then [b] else []) + KeyClass(s, k)
  {
    if s == [] || KeyLe(b, s[0]) {
      assert ([b] + s)[1..] == s;
    } else {
      InsertKeyClass(b, s[1..], k);
      assert ([s[0]] + Insert(b, s[1..]))[1..] == Insert(b, s[1..]);
    }
  }

  /** Stability: the blocks sharing one key keep their delivered order. */
  lemma {:induction false} SortStable(s: seq<Block>, k: Block)
    ensures KeyClass(SortByKey(s), k) == KeyClass(s, k)
  {
    if s != [] {
      SortStable(s[1..], k);
      InsertKeyClass(s[0], SortByKey(s[1..]), k);
    }
  }

  /** Two sorted sequences with the same key classes start with blocks of
      the same key. */
  lemma HeadsSameKey(r: seq<Block>, t: seq<Block>)
    requires Sorted(r) && Sorted(t) && r != [] && t != []
    requires KeyClass(r, r[0]) == KeyClass(t, r[0]) && KeyClass(r, t[0]) == KeyClass(t, t[0])
    ensures SameKey(r[0], t[0])
  {
    var a, c := r[0], t[0];
    KeyClassMember(r, a, a);
    KeyClassMember(t, a, a);
    KeyClassMember(t, c, c);
    KeyClassMember(r, c, c);
    assert KeyLe(c, a) by {
      var i :| 0 <= i < |t| && t[i] == a;
    }
    assert KeyLe(a, c) by {
      var i :| 0 <= i < |r| && r[i] == c;
    }
  }

  /** Two sequences with the same key classes whose heads share a key have
      equal heads and tails with the same key classes. */
  lemma SameHeadTail(r: seq<Block>, t: seq<Block>)
    requires r != [] && t != [] && SameKey(r[0], t[0])
    requires forall k :: KeyClass(r, k) == KeyClass(t, k)
    ensures r[0] == t[0]
    ensures forall k :: KeyClass(r[1..], k) == KeyClass(t[1..], k)
  {
    var a, c := r[0], t[0];
    KeyClassSameKey(t, a, c);
    assert KeyClass(r, a) == [a] + KeyClass(r[1..], a);
    assert KeyClass(t, c) == [c] + KeyClass(t[1..], c);
    var ra, tc := KeyClass(r[1..], a), KeyClass(t[1..], c);
    assert [a] + ra == [c] + tc by { assert KeyClass(r, a) == KeyClass(t, a); }
    assert a == c && ra == tc by {
      assert ([a] + ra)[0] == a && ([c] + tc)[0] == c;
      assert ([a] + ra)[1..] == ra && ([c] + tc)[1..] == tc;
    }
    forall k ensures KeyClass(r[1..], k) == KeyClass(t[1..], k) {
      if SameKey(a, k) {
        KeyClassSameKey(r[1..], a, k);
        KeyClassSameKey(t[1..], c, k);
      } else {
        assert KeyClass(r, k) == KeyClass(r[1..], k);
        assert KeyClass(t, k) == KeyClass(t[1..], k);
      }
    }
  }

  lemma {:induction false} SortedSameClassesEqual(r: seq<Block>, t: seq<Block>)
    requires Sorted(r) && Sorted(t)
    requires forall k :: KeyClass(r, k) == KeyClass(t, k)
    ensures r == t
  {
    if r == [] || t == [] {
      var u := if r == [] then t else r;
      if u != [] {
        KeyClassMember(u, u[0], u[0]);
      }
    } else {
      HeadsSameKey(r, t);
      SameHeadTail(r, t);
      SortedSameClassesEqual(r[1..], t[1..]);
      assert r == [r[0]] + r[1..] && t == [t[0]] + t[1..];
    }
  }

  /** Any sorted arrangement that keeps every key's blocks in their delivered
      order is `SortByKey(s)`: every stable sort on `(y0, x0)` gives the same
      sequence, whatever algorithm performs it. */
  lemma SortUnique(s: seq<Block>, r: seq<Block>)
    requires Sorted(r)
    requires forall k :: KeyClass(r, k) == KeyClass(s, k)
    ensures r == SortByKey(s)
  {
    forall k ensures KeyClass(r, k) == KeyClass(SortByKey(s), k) {
      SortStable(s, k);
    }
    SortByKeySpec(s);
    SortedSameClassesEqual(r, SortByKey(s));
  }
}
