/** The order of row keys, and the range that stands for a prefix.

    Keys are sequences of code points, compared lexicographically, as the
    table compares PartitionKey and RowKey in a filter. */
module KeyOrder {
  const MAX_CODE_POINT := 0x10FFFF

  type Key = seq<int>

  function Codes(s: string): Key {
    seq(|s|, i requires 0 <= i < |s| => s[i] as int)
  }

  predicate Less(a: Key, b: Key) {
    b != [] && (a == [] || a[0] < b[0] || (a[0] == b[0] && Less(a[1..], b[1..])))
  }

  /** The order, said without recursion: a is a proper prefix of b, or they
      part at some place where a has the smaller code point. */
  lemma {:induction false} LessIff(a: Key, b: Key)
    ensures Less(a, b) <==>
      || (|a| < |b| && b[..|a|] == a)
      || (exists k :: 0 <= k < |a| && k < |b| && a[..k] == b[..k] && a[k] < b[k])
  {
    if a == [] || b == [] {
    } else if a[0] != b[0] {
      if a[0] < b[0] {
        assert a[..0] == b[..0];
      }
    } else {
      LessIff(a[1..], b[1..]);
      if Less(a, b) {
        if |a| < |b| && b[1..][..|a| - 1] == a[1..] {
          assert b[..|a|] == [b[0]] + b[1..][..|a| - 1];
          assert b[..|a|] == a;
        } else {
          var k :| 0 <= k < |a| - 1 && k < |b| - 1 && a[1..][..k] == b[1..][..k] && a[1..][k] < b[1..][k];
          assert a[..k + 1] == [a[0]] + a[1..][..k] && b[..k + 1] == [b[0]] + b[1..][..k];
        }
      }
      if |a| < |b| && b[..|a|] == a {
        assert b[1..][..|a| - 1] == a[1..];
      }
      if k :| 0 <= k < |a| && k < |b| && a[..k] == b[..k] && a[k] < b[k] {
        assert k > 0;
        assert a[1..][..k - 1] == a[..k][1..] && b[1..][..k - 1] == b[..k][1..];
        assert a[1..][k - 1] < b[1..][k - 1];
      }
    }
  }

  lemma {:induction false} LessIsTotal(a: Key, b: Key)
    requires !Less(a, b) && !Less(b, a)
    ensures a == b
  {
    if a != [] && b != [] {
      LessIsTotal(a[1..], b[1..]);
      assert a == [a[0]] + a[1..] && b == [b[0]] + b[1..];
    }
  }

  lemma {:induction false} LessIsIrreflexive(a: Key)
    ensures !Less(a, a)
  {
    if a != [] {
      LessIsIrreflexive(a[1..]);
    }
  }

  lemma {:induction false} LessIsTransitive(a: Key, b: Key, c: Key)
    requires Less(a, b) && Less(b, c)
    ensures Less(a, c)
  {
    if a != [] && a[0] == b[0] == c[0] {
      LessIsTransitive(a[1..], b[1..], c[1..]);
    }
  }

  // ---------------------------------------------------- prefix ranges

  /** lo <= k < hi */
  predicate InRange(k: Key, lo: Key, hi: Key) {
    !Less(k, lo) && Less(k, hi)
  }

  /** For keys with a common front, only what follows it matters. */
  lemma {:induction false} LessAfterFront(front: Key, a: Key, b: Key)
    ensures Less(front + a, front + b) <==> Less(a, b)
  {
    if front == [] {
      assert front + a == a && front + b == b;
    } else {
      LessAfterFront(front[1..], a, b);
      assert (front + a)[1..] == front[1..] + a && (front + b)[1..] == front[1..] + b;
    }
  }

  /** A range whose ends differ only after `front` keeps to `front`. */
  lemma {:induction false} RangeKeepsFront(front: Key, k: Key, a: Key, b: Key)
    requires InRange(k, front + a, front + b)
    ensures |front| <= |k| && k[..|front|] == front
  {
    if front != [] {
      assert (front + a)[1..] == front[1..] + a && (front + b)[1..] == front[1..] + b;
      assert k != [] && k[0] == front[0];
      RangeKeepsFront(front[1..], k[1..], a, b);
      assert k[..|front|] == [k[0]] + k[1..][..|front| - 1];
    }
  }

  /** The keys between front+[lo] and front+[hi] are exactly those that begin
      with `front` and go on with a code point from lo up to, not including,
      hi. */
  lemma {:induction false} RangeIff(front: Key, lo: int, hi: int, k: Key)
    ensures InRange(k, front + [lo], front + [hi]) <==>
      |front| < |k| && k[..|front|] == front && lo <= k[|front|] < hi
  {
    if InRange(k, front + [lo], front + [hi]) {
      RangeKeepsFront(front, k, [lo], [hi]);
    }
    if |front| <= |k| && k[..|front|] == front {
      var rest := k[|front|..];
      assert k == front + rest;
      LessAfterFront(front, rest, [lo]);
      LessAfterFront(front, rest, [hi]);
      assert Less(rest, [hi]) <==> rest == [] || rest[0] < hi;
      assert Less(rest, [lo]) <==> rest == [] || rest[0] < lo;
    }
  }

  /** The next code point: chr(ord(c) + 1). It fails on the last one. */
  function PrefixEnd(prefix: Key): Key
    requires prefix != [] && prefix[|prefix| - 1] < MAX_CODE_POINT
  {
    prefix[..|prefix| - 1] + [prefix[|prefix| - 1] + 1]
  }

  /** query_by_org's range is the prefix: p <= k < PrefixEnd(p) exactly when
      p is a prefix of k. */
  lemma PrefixRangeIff(prefix: Key, k: Key)
    requires prefix != [] && prefix[|prefix| - 1] < MAX_CODE_POINT
    ensures InRange(k, prefix, PrefixEnd(prefix)) <==> prefix <= k
  {
    var n := |prefix| - 1;
    var front, last := prefix[..n], prefix[n];
    assert prefix == front + [last];
    RangeIff(front, last, last + 1, k);
  }

  /** UserRepository.get_user_org_id and list_org_users close their range with
      '~' instead: from p + ":" up to p + "~". That selects the keys going on
      with any code point from ':' to '}', so it equals the prefix p + ":"
      exactly when no stored key goes on with one from ';' to '}'. */
  lemma TildeRangeIff(p: Key, k: Key)
    ensures InRange(k, p + Codes(":"), p + Codes("~")) <==>
      |p| < |k| && k[..|p|] == p && (':' as int) <= k[|p|] < ('~' as int)
    ensures p + Codes(":") <= k ==> InRange(k, p + Codes(":"), p + Codes("~"))
  {
    assert Codes(":") == [':' as int] && Codes("~") == ['~' as int];
    RangeIff(p, ':' as int, '~' as int, k);
    if p + Codes(":") <= k {
      assert k[..|p|] == p && k[|p|] == ':' as int;
    }
  }

  lemma TildeRangeIsPrefixIff(p: Key, stored: set<Key>)
    ensures
      (forall k :: k in stored ==> (InRange(k, p + Codes(":"), p + Codes("~")) <==> p + Codes(":") <= k))
      <==>
      (forall k :: k in stored && |p| < |k| && k[..|p|] == p ==> !((';' as int) <= k[|p|] < ('~' as int)))
  {
    assert Codes(":") == [':' as int];
    forall k | k in stored
      ensures (InRange(k, p + Codes(":"), p + Codes("~")) <==> p + Codes(":") <= k) <==>
              !(|p| < |k| && k[..|p|] == p && (';' as int) <= k[|p|] < ('~' as int))
    {
      TildeRangeIff(p, k);
      if |p| < |k| && k[..|p|] == p && k[|p|] == ':' as int {
        assert k[..|p| + 1] == p + Codes(":");
      }
    }
  }

  /** Two emails for which they do not: bob@x.co's range holds bob@x.com's
      row. */
  lemma TildeRangeHoldsAnotherEmail(orgId: string)
    ensures InRange(Codes("bob@x.com:" + orgId), Codes("bob@x.co") + Codes(":"), Codes("bob@x.co") + Codes("~"))
    ensures !(Codes("bob@x.co") + Codes(":") <= Codes("bob@x.com:" + orgId))
  {
    var p, k := Codes("bob@x.co"), Codes("bob@x.com:" + orgId);
    assert k[..|p|] == p && k[|p|] == 'm' as int;
    TildeRangeIff(p, k);
    assert (p + Codes(":"))[|p|] == ':' as int;
  }
}
